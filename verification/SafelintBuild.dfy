/** Counting violations, printing the summary and deciding whether the build fails
    (scripts/safe_template_linter.py:500-548, pavelib/quality.py:333-405). */
module SafelintBuild {
  import opened Text
  import opened SummaryReport

  function Sum(rules: seq<string>, counts: multiset<string>): nat {
    if rules == [] then 0 else counts[rules[0]] + Sum(rules[1..], counts)
  }

  lemma {:induction false} SumWithOneMore(rules: seq<string>, counts: multiset<string>, rule: string)
    requires forall j, k :: 0 <= j < k < |rules| ==> rules[j] != rules[k]
    ensures Sum(rules, counts + multiset{rule}) == Sum(rules, counts) + if rule in rules then 1 else 0
  {
    if rules != [] {
      SumWithOneMore(rules[1..], counts, rule);
      assert rule in rules <==> rule == rules[0] || rule in rules[1..];
    }
  }

  lemma {:induction false} SumIsCount(rules: seq<string>, added: seq<string>)
    requires (forall j, k :: 0 <= j < k < |rules| ==> rules[j] != rules[k]) && forall a :: a in added ==> a in rules
    ensures Sum(rules, multiset(added)) == |added|
  {
    if added == [] {
      SumOfNothing(rules);
    } else {
      var n := |added| - 1;
      assert added == added[..n] + [added[n]];
      SumIsCount(rules, added[..n]);
      SumWithOneMore(rules, multiset(added[..n]), added[n]);
    }
  }

  lemma {:induction false} SumOfNothing(rules: seq<string>)
    ensures Sum(rules, multiset{}) == 0
  {
    if rules != [] {
      SumOfNothing(rules[1..]);
    }
  }

  class SummaryResults {
    /** The rule ids, in the order of the enumeration. */
    const rules: seq<string>
    var totalViolations: nat
    var totalsByRule: map<string, nat>
    /** The rules of the violations added so far. */
    ghost var added: seq<string>

    /** The counts are those of the violations added. */
    ghost predicate Valid()
      reads this
    {
      && RuleIds(rules)
      && (forall rule :: rule in totalsByRule <==> rule in rules)
      && (forall rule :: rule in rules ==> totalsByRule[rule] == multiset(added)[rule])
      && (forall a :: a in added ==> a in rules)
      && totalViolations == |added|
    }

    constructor (rules: seq<string>)
      requires RuleIds(rules)
      ensures Valid() && this.rules == rules && added == []
    {
      this.rules := rules;
      totalViolations := 0;
      totalsByRule := map rule | rule in rules :: 0;
      added := [];
    }

    method AddViolation(rule: string)
      requires Valid() && rule in rules
      modifies this
      ensures Valid() && added == old(added) + [rule]
    {
      totalViolations := totalViolations + 1;
      totalsByRule := totalsByRule[rule := totalsByRule[rule] + 1];
      added := added + [rule];
    }

    /** The total is the sum of the counts by rule. */
    lemma TotalIsSum()
      requires Valid()
      ensures totalViolations == Sum(rules, multiset(added))
    {
      SumIsCount(rules, added);
    }

    /** The loop of print_results over the sorted rules. */
    method PrintRuleTotals(sorted: seq<string>, ghost after: string) returns (out: string)
      requires forall k :: 0 <= k < |sorted| ==> sorted[k] in totalsByRule
      ensures out + after == RuleTotals(sorted, MaxLength(sorted), totalsByRule, after)
    {
      var maxRuleIdLen := MaxLength(sorted);
      out := "";
      assert sorted[0..] == sorted;
      for k := 0 to |sorted|
        invariant out + RuleTotals(sorted[k..], maxRuleIdLen, totalsByRule, after)
               == RuleTotals(sorted, maxRuleIdLen, totalsByRule, after)
      {
        assert sorted[k..][1..] == sorted[k + 1..];
        var line := RuleLine(sorted[k], maxRuleIdLen, totalsByRule[sorted[k]]);
        hide RuleLine, MaxLength;
        Append(out, line, "\n", RuleTotals(sorted[k + 1..], maxRuleIdLen, totalsByRule, after));
        out := out + line + "\n";
      }
    }

    /** print_results, without the violations that were printed before it. */
    method PrintResults(listFiles: bool, ruleTotals: bool) returns (out: string)
      requires Valid()
      ensures forall rule :: rule in Sorted(rules) <==> rule in totalsByRule
      ensures out == if listFiles then "" else if ruleTotals then Summary(Sorted(rules), totalsByRule, totalViolations)
                     else Printed([""], TotalLine(totalViolations))
    {
      ghost var last := TotalLine(totalViolations);
      EmptyLines(last);
      SortedRuleIds(rules);
      hide Valid, Sorted, MaxLength, RuleIds;
      if listFiles {
        return "";
      }
      if ruleTotals {
        var printed := PrintRuleTotals(Sorted(rules), Printed(["", ""], last));
        hide RuleTotals, TotalLine, Printed;
        out := "\n" + (printed + ("\n" + ("\n" + TotalLine(totalViolations))));
      } else {
        hide TotalLine, Printed;
        out := "\n" + TotalLine(totalViolations);
      }
    }
  }

  lemma {:induction false} Append(out: string, line: string, lineBreak: string, rest: string)
    ensures out + (line + (lineBreak + rest)) == (out + line + lineBreak) + rest
  {
  }

  lemma {:induction false} EmptyLines(after: string)
    ensures Printed([""], after) == "\n" + after
    ensures Printed(["", ""], after) == "\n" + ("\n" + after)
    ensures forall more: string :: Printed([""], more) == "\n" + more
  {
  }

  // ---------- The threshold decision ----------

  /** The limits given to the build: one for the total and one for each of some rules. */
  datatype Thresholds = Thresholds(total: Option<int>, rules: map<string, int>)

  datatype Problem =
    | TooManyTotal(count: nat, limit: int)
    | NotFound(rule: string)
    | TooMany(rule: string, count: nat, limit: int)

  /** run_safelint: None when the total could not be read, otherwise the problems the build fails with, if any.
      `keys` are the rules with a limit, in sorted order. */
  method RunSafelint(report: string, thresholds: Thresholds, keys: seq<string>) returns (problems: Option<seq<Problem>>)
    requires forall rule :: rule in keys <==> rule in thresholds.rules
    ensures problems.None? <==> Total(report, true).None?
    ensures problems.Some? ==>
      var counts, total := Counts(report, true, map[]), Total(report, true).value;
      && (problems.value != [] <==> Exceeds(thresholds, counts, total))
      && (forall count: nat, limit :: TooManyTotal(count, limit) in problems.value <==>
            thresholds.total == Some(limit) && count == total && limit < count)
      && (forall rule :: NotFound(rule) in problems.value <==> rule in thresholds.rules && rule !in counts)
      && (forall rule, count: nat, limit :: TooMany(rule, count, limit) in problems.value <==>
            && rule in thresholds.rules && limit == thresholds.rules[rule]
            && rule in counts && count == counts[rule] && limit < count)
  {
    var rules, total := GetSafelintCounts(report);
    if total.None? {
      return None;
    }
    var errors: seq<Problem> := [];
    if thresholds.total.Some? {
      if thresholds.total.value < total.value {
        errors := [TooManyTotal(total.value, thresholds.total.value)];
      }
    }
    hide Exceeds, Counts, Total, RuleExceeds;
    ExceedsByKeys(thresholds, rules, total.value, keys);
    var more := CheckRules(thresholds, rules, keys);
    problems := Some(errors + more);
  }

  /** The loop over the rules with a limit. */
  method CheckRules(thresholds: Thresholds, counts: map<string, nat>, keys: seq<string>) returns (errors: seq<Problem>)
    requires forall rule :: rule in keys ==> rule in thresholds.rules
    ensures errors != [] <==> exists j :: 0 <= j < |keys| && RuleExceeds(thresholds, counts, keys[j])
    ensures forall rule :: NotFound(rule) in errors <==> rule in keys && rule !in counts
    ensures forall rule, count: nat, limit :: TooMany(rule, count, limit) in errors <==>
      rule in keys && rule in counts && count == counts[rule] && limit == thresholds.rules[rule] && limit < count
    ensures forall count: nat, limit :: TooManyTotal(count, limit) !in errors
  {
    errors := [];
    for k := 0 to |keys|
      invariant errors != [] <==> exists j :: 0 <= j < k && RuleExceeds(thresholds, counts, keys[j])
      invariant forall rule :: NotFound(rule) in errors <==> rule in keys[..k] && rule !in counts
      invariant forall rule, count: nat, limit :: TooMany(rule, count, limit) in errors <==>
        rule in keys[..k] && rule in counts && count == counts[rule] && limit == thresholds.rules[rule] && limit < count
      invariant forall count: nat, limit :: TooManyTotal(count, limit) !in errors
    {
      assert keys[..k + 1] == keys[..k] + [keys[k]];
      if keys[k] !in counts {
        errors := errors + [NotFound(keys[k])];
      } else if thresholds.rules[keys[k]] < counts[keys[k]] {
        errors := errors + [TooMany(keys[k], counts[keys[k]], thresholds.rules[keys[k]])];
      }
    }
  }

  /** A limit names a rule that has no count, or is below the rule's count. */
  predicate RuleExceeds(thresholds: Thresholds, counts: map<string, nat>, rule: string) {
    rule in thresholds.rules && (rule !in counts || thresholds.rules[rule] < counts[rule])
  }

  ghost predicate Exceeds(thresholds: Thresholds, counts: map<string, nat>, total: nat) {
    (thresholds.total.Some? && thresholds.total.value < total) || exists rule :: RuleExceeds(thresholds, counts, rule)
  }

  lemma {:induction false} ExceedsByKeys(thresholds: Thresholds, counts: map<string, nat>, total: nat,
                                         keys: seq<string>)
    requires forall rule :: rule in keys <==> rule in thresholds.rules
    ensures Exceeds(thresholds, counts, total)
        <==> (thresholds.total.Some? && thresholds.total.value < total)
             || exists j :: 0 <= j < |keys| && RuleExceeds(thresholds, counts, keys[j])
  {
  }

  // ---------- From violations to the decision ----------

  /** A violation that is reported: at a place in a file, with the line of code, or of a file as a whole. */
  datatype Reported =
    | AtPlace(path: string, row: nat, column: nat, rule: string, code: string)
    | OfFile(path: string, rule: string)

  /** The line printed for it. */
  function LineFor(v: Reported): string {
    match v
    case AtPlace(path, row, column, rule, code) =>
      ViolationLine(path, row, Decimal(column) + (": " + (rule + (": " + code))))
    case OfFile(path, rule) => FileLine(path, rule)
  }

  function LinesFor(reported: seq<Reported>): (lines: seq<string>)
    ensures |lines| == |reported| && forall k :: 0 <= k < |lines| ==> lines[k] == LineFor(reported[k])
  {
    seq(|reported|, k requires 0 <= k < |reported| => LineFor(reported[k]))
  }

  function RulesOf(reported: seq<Reported>): (rules: seq<string>)
    ensures |rules| == |reported| && forall k :: 0 <= k < |rules| ==> rules[k] == reported[k].rule
  {
    seq(|reported|, k requires 0 <= k < |reported| => reported[k].rule)
  }

  /** The lines in full: the file, the place, the rule and the code, or the file and the rule. */
  lemma {:induction false} LineForText(path: string, row: nat, column: nat, rule: string, code: string)
    ensures LineFor(AtPlace(path, row, column, rule, code))
         == path + ": " + Decimal(row) + ":" + Decimal(column) + ": " + rule + ": " + code
    ensures LineFor(OfFile(path, rule)) == path + ": " + rule
  {
    hide Decimal;
    var r, c := Decimal(row), Decimal(column);
    var tail := rule + (": " + code);
    Regroup(path, ": ", r + (":" + (c + (": " + tail))));
    Regroup(path + ": ", r, ":" + (c + (": " + tail)));
    Regroup(path + ": " + r, ":", c + (": " + tail));
    Regroup(path + ": " + r + ":", c, ": " + tail);
    Regroup(path + ": " + r + ":" + c, ": ", tail);
    Regroup(path + ": " + r + ":" + c + ": ", rule, ": " + code);
    Regroup(path + ": " + r + ":" + c + ": " + rule, ": ", code);
  }

  lemma {:induction false} Regroup(a: string, b: string, c: string)
    ensures a + (b + c) == a + b + c
  {
  }

  /** For a file whose path has no space and no colon, the line does not disturb the reading of the report. */
  lemma {:induction false} LineForIsHarmless(v: Reported)
    requires PlainPath(v.path) && RuleId(v.rule) && (v.AtPlace? ==> NoBreak(v.code))
    ensures Harmless(LineFor(v))
  {
    match v
    case AtPlace(path, row, column, rule, code) =>
      var digits, rest := Decimal(column), rule + (": " + code);
      assert NoBreak(digits) && NoBreak(rule) && NoBreak(": ");
      hide Decimal, NoBreak, Harmless, RuleId;
      NoBreakInBoth(": ", code);
      NoBreakInBoth(rule, ": " + code);
      NoBreakInBoth(": ", rest);
      NoBreakInBoth(digits, ": " + rest);
      ViolationLineIsHarmless(path, row, digits + (": " + rest));
    case OfFile(path, rule) =>
      FileLineIsHarmless(path, rule);
  }

  /** The loop of FileResults.print_results over the violations that are not disabled: each is printed and added. */
  method PrintAndAdd(rules: seq<string>, reported: seq<Reported>)
    returns (summary: SummaryResults, printed: seq<string>)
    requires RuleIds(rules) && forall v :: v in reported ==> v.rule in rules
    ensures fresh(summary) && summary.Valid() && summary.rules == rules && summary.added == RulesOf(reported)
    ensures printed == LinesFor(reported)
  {
    summary := new SummaryResults(rules);
    printed := [];
    hide *;
    for k := 0 to |reported|
      invariant summary.Valid() && summary.rules == rules && summary.added == RulesOf(reported[..k])
      invariant printed == LinesFor(reported[..k])
    {
      OneMoreReported(reported, k);
      printed := printed + [LineFor(reported[k])];
      summary.AddViolation(reported[k].rule);
    }
    assert reported[..|reported|] == reported;
  }

  lemma {:induction false} OneMoreReported(reported: seq<Reported>, k: nat)
    requires k < |reported|
    ensures LinesFor(reported[..k + 1]) == LinesFor(reported[..k]) + [LineFor(reported[k])]
    ensures RulesOf(reported[..k + 1]) == RulesOf(reported[..k]) + [reported[k].rule]
  {
    hide LineFor;
  }

  lemma {:induction false} TrueCountsExceed(thresholds: Thresholds, counts: map<string, nat>, rules: seq<string>,
                                            violations: seq<string>)
    requires forall rule :: rule in counts <==> rule in rules
    requires forall rule :: rule in rules ==> counts[rule] == multiset(violations)[rule]
    ensures Exceeds(thresholds, counts, |violations|) <==>
      || (thresholds.total.Some? && thresholds.total.value < |violations|)
      || (exists rule :: rule in thresholds.rules
            && (rule !in rules || thresholds.rules[rule] < multiset(violations)[rule]))
  {
    assert forall rule :: RuleExceeds(thresholds, counts, rule) <==>
      rule in thresholds.rules && (rule !in rules || thresholds.rules[rule] < multiset(violations)[rule]);
  }

  /** From the reported violations to the build: it fails if and only if more were reported, in all or of a rule, than
      the limits allow, or a limit names an unknown rule. */
  method LintAndDecide(reported: seq<Reported>, rules: seq<string>, thresholds: Thresholds, keys: seq<string>)
    returns (problems: Option<seq<Problem>>)
    requires RuleIds(rules) && forall v :: v in reported ==> v.rule in rules && Harmless(LineFor(v))
    requires forall rule :: rule in keys <==> rule in thresholds.rules
    ensures problems.Some?
    ensures problems.value != [] <==>
      || (thresholds.total.Some? && thresholds.total.value < |reported|)
      || (exists rule :: rule in thresholds.rules
            && (rule !in rules || thresholds.rules[rule] < multiset(RulesOf(reported))[rule]))
  {
    var summary, printed := PrintAndAdd(rules, reported);
    TrueCountsExceed(thresholds, summary.totalsByRule, rules, RulesOf(reported));
    hide *;
    var out := summary.PrintResults(false, true);
    SortedRuleIds(rules);
    ReportReadsBack(printed, Sorted(rules), summary.totalsByRule, summary.totalViolations);
    problems := RunSafelint(Printed(printed, out), thresholds, keys);
  }
}
