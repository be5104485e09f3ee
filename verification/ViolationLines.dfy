/** Preparing a violation for printing, possibly more than once
    (scripts/safe_template_linter.py:290-320, 372-465, 467-497, 569-583, 1118-1119). */
module ViolationLines {
  import opened Text
  import opened StringLines

  /** The texts of lines `first` to `last`. */
  function LinesBetween(s: string, first: nat, last: nat): (r: seq<string>)
    requires 1 <= first && last <= LineCount(s)
    ensures |r| == if first <= last then last - first + 1 else 0
  {
    if first > last then [] else LinesBetween(s, first, last - 1) + [LineText(s, last)]
  }

  lemma {:induction false} Associative(a: seq<string>, b: seq<string>, c: seq<string>)
    ensures (a + b) + c == a + (b + c)
  {
  }

  lemma {:induction false} NoLinesBetween(s: string, first: nat)
    requires 1 <= first <= LineCount(s)
    ensures LinesBetween(s, first, first - 1) == []
  {
  }

  lemma {:induction false} OneMoreLine(s: string, first: nat, n: nat)
    requires 1 <= first <= n <= LineCount(s)
    ensures LinesBetween(s, first, n) == LinesBetween(s, first, n - 1) + [LineText(s, n)]
  {
  }

  lemma {:induction false} LineBetween(s: string, first: nat, last: nat, n: nat)
    requires 1 <= first <= n <= last <= LineCount(s)
    ensures LinesBetween(s, first, last)[n - first] == LineText(s, n)
  {
    hide LineText, LineCount;
    if n < last {
      LineBetween(s, first, last - 1, n);
    }
  }

  /** The lines after n preparations. */
  function Repeated(lines: seq<string>, n: nat): seq<string> {
    if n == 0 then [] else Repeated(lines, n - 1) + lines
  }

  /** However often they were repeated, the lines come first in their order. */
  lemma {:induction false} RepeatedBegins(lines: seq<string>, n: nat)
    requires n >= 1
    ensures lines <= Repeated(lines, n)
  {
    if n > 1 {
      RepeatedBegins(lines, n - 1);
    } else {
      assert Repeated(lines, 1) == [] + lines;
    }
  }

  // ---------- The disable pragma ----------

  const PRAGMA := "safe-lint:"
  const DISABLE := "disable="

  /** `[a-zA-Z,-]`. */
  predicate IsNameChar(c: char) {
    'a' <= c <= 'z' || 'A' <= c <= 'Z' || c == ',' || c == '-'
  }

  /** The rule names of a match of `safe-lint:\s*disable=([a-zA-Z,-]+)` at index i. */
  function PragmaAt(line: string, i: nat): Option<string> {
    if !At(line, PRAGMA, i) then None
    else
      var d := i + |PRAGMA| + Span(line[i + |PRAGMA|..], IsSpace);
      if !At(line, DISABLE, d) then None
      else
        var n := d + |DISABLE| + Span(line[d + |DISABLE|..], IsNameChar);
        if n == d + |DISABLE| then None else Some(line[d + |DISABLE|..n])
  }

  /** A match and the index at which it begins. */
  datatype Pragma = Pragma(start: nat, names: string)

  /** The first match from an index on. */
  function FindPragma(line: string, from: nat): (r: Option<Pragma>)
    ensures r.None? ==> forall i :: from <= i < |line| ==> PragmaAt(line, i).None?
    ensures r.Some? ==> from <= r.value.start < |line| && PragmaAt(line, r.value.start) == Some(r.value.names)
    ensures r.Some? ==> forall i :: from <= i < r.value.start ==> PragmaAt(line, i).None?
    decreases |line| - from
  {
    hide PragmaAt;
    if from >= |line| then None
    else if PragmaAt(line, from).Some? then Some(Pragma(from, PragmaAt(line, from).value))
    else FindPragma(line, from + 1)
  }

  /** `names.split(",")`. */
  function Split(names: string): seq<string>
    decreases |names|
  {
    match FindChar(names, {','}, 0, |names|)
    case None => [names]
    case Some(c) => [names[..c]] + Split(names[c + 1..])
  }

  /** The rule stands in the names at index i, between commas or the ends. */
  predicate ListedAt(names: string, rule: string, i: nat) {
    && At(names, rule, i)
    && (i == 0 || names[i - 1] == ',') && (i + |rule| == |names| || names[i + |rule|] == ',')
  }

  ghost predicate Listed(names: string, rule: string) {
    exists i: nat :: ListedAt(names, rule, i)
  }

  /** A rule is one of the parts if and only if it is listed. */
  lemma {:induction false} SplitHasListed(names: string, rule: string)
    requires ',' !in rule
    ensures rule in Split(names) <==> Listed(names, rule)
    decreases |names|
  {
    var comma := FindChar(names, {','}, 0, |names|);
    if comma.None? {
      ListedAlone(names, rule);
    } else {
      SplitHasListed(names[comma.value + 1..], rule);
      ListedInTwo(names, rule, comma.value);
    }
  }

  lemma {:induction false} ListedAlone(names: string, rule: string)
    requires ',' !in names
    ensures Listed(names, rule) <==> rule == names
  {
    if i: nat :| ListedAt(names, rule, i) {
      assert forall k :: 0 <= k < |names| ==> names[k] != ',';
      StandsAtIff(names, rule, i);
    }
    if rule == names {
      assert ListedAt(names, rule, 0);
    }
  }

  lemma {:induction false} ListedInTwo(names: string, rule: string, comma: nat)
    requires ',' !in rule && comma < |names| && names[comma] == ',' && forall k :: 0 <= k < comma ==> names[k] != ','
    ensures Listed(names, rule) <==> rule == names[..comma] || Listed(names[comma + 1..], rule)
  {
    var rest := names[comma + 1..];
    ListedFirst(names, rule, comma);
    hide At;
    if i: nat :| ListedAt(names, rule, i) {
      if i > comma {
        AtLater(names, rule, comma + 1, i - comma - 1);
        assert ListedAt(rest, rule, i - comma - 1);
      }
    }
    if i: nat :| ListedAt(rest, rule, i) {
      AtLater(names, rule, comma + 1, i);
      assert ListedAt(names, rule, comma + 1 + i);
    }
  }

  /** Listed at or before the first comma is being the part before it. */
  lemma {:induction false} ListedFirst(names: string, rule: string, comma: nat)
    requires ',' !in rule && comma < |names| && names[comma] == ',' && forall k :: 0 <= k < comma ==> names[k] != ','
    ensures (exists i: nat :: i <= comma && ListedAt(names, rule, i)) <==> rule == names[..comma]
  {
    if i: nat :| i <= comma && ListedAt(names, rule, i) {
      StandsAtIff(names, rule, i);
      forall k | 0 <= k < |rule| ensures names[k] != ',' {
        assert names[..|rule|][k] == rule[k];
      }
    }
    if rule == names[..comma] {
      assert ListedAt(names, rule, 0);
    }
  }

  lemma {:induction false} AtLater(s: string, pat: string, d: nat, i: nat)
    requires d <= |s|
    ensures At(s, pat, d + i) <==> At(s[d..], pat, i)
  {
    StandsAtIff(s, pat, d + i);
    StandsAtIff(s[d..], pat, i);
    if d + i + |pat| <= |s| {
      assert s[d..][i..i + |pat|] == s[d + i..d + i + |pat|];
    }
  }

  /** The line has a pragma that names the rule. Where the pragma must be at the start of its scope, at most five
      characters other than spaces come before it. */
  predicate Disables(line: string, scopeStart: bool, rule: string) {
    match FindPragma(line, 0)
    case None => false
    case Some(pragma) =>
      (scopeStart ==> pragma.start - multiset(line[..pragma.start])[' '] <= 5) && rule in Split(pragma.names)
  }

  // ---------- Pragmas in the characters of a line ----------

  /** From i on the line reads "safe-lint:", white space up to d, "disable=", and from d + 8 to n the names: letters,
      commas and hyphens, as many as there are and at least one. */
  predicate PragmaText(line: string, i: nat, d: nat, n: nat) {
    && StandsAt(line, "safe-lint:", i) && i + 10 <= d
    && (forall k :: i + 10 <= k < d ==> k < |line| && line[k] in {' ', '\t', '\n', '\r', '\U{00000b}', '\U{00000c}'})
    && StandsAt(line, "disable=", d) && d + 8 < n <= |line|
    && (forall k :: d + 8 <= k < n ==>
          'a' <= line[k] <= 'z' || 'A' <= line[k] <= 'Z' || line[k] == ',' || line[k] == '-')
    && (n < |line| ==>
          !('a' <= line[n] <= 'z' || 'A' <= line[n] <= 'Z' || line[n] == ',' || line[n] == '-'))
  }

  /** The run of characters of a class from an index on ends at k. */
  predicate RunsTo(line: string, from: nat, k: nat, holds: char -> bool) {
    from <= k <= |line| && (forall j :: from <= j < k ==> holds(line[j])) && (k < |line| ==> !holds(line[k]))
  }

  lemma {:induction false} RunsToSpan(line: string, from: nat, k: nat, holds: char -> bool)
    requires from <= |line|
    ensures RunsTo(line, from, k, holds) <==> k == from + Span(line[from..], holds)
  {
    var after := line[from..];
    var n := Span(after, holds);
    assert forall j: nat :: from <= j < |line| ==> line[j] == after[j - from];
    if RunsTo(line, from, k, holds) {
      if k < |line| {
        SpanIs(after, holds, k - from);
      }
    }
  }

  lemma {:induction false} PragmaTextParts(line: string, i: nat, d: nat, n: nat)
    ensures PragmaText(line, i, d, n)
        <==> At(line, PRAGMA, i) && RunsTo(line, i + 10, d, IsSpace) && At(line, DISABLE, d)
             && d + 8 < n && RunsTo(line, d + 8, n, IsNameChar)
  {
    StandsAtIff(line, "safe-lint:", i);
    StandsAtIff(line, "disable=", d);
    assert StandsAt(line, "disable=", d) ==> line[d] == line[d..d + 8][0] == 'd';
    hide At, StandsAt;
  }

  lemma {:induction false} PragmaTextFound(line: string, i: nat, d: nat, n: nat)
    requires PragmaText(line, i, d, n)
    ensures i < |line| && PragmaAt(line, i) == Some(line[d + 8..n])
  {
    PragmaTextParts(line, i, d, n);
    hide PragmaText, Span;
    assert i + |PRAGMA| <= |line| && d + |DISABLE| <= |line|;
    RunsToSpan(line, i + 10, d, IsSpace);
    RunsToSpan(line, d + 8, n, IsNameChar);
  }

  lemma {:induction false} PragmaFoundText(line: string, i: nat)
    requires PragmaAt(line, i).Some?
    ensures exists d: nat, n: nat :: PragmaText(line, i, d, n)
  {
    hide PragmaText, Span;
    var d := i + 10 + Span(line[i + 10..], IsSpace);
    var n := d + 8 + Span(line[d + 8..], IsNameChar);
    RunsToSpan(line, i + 10, d, IsSpace);
    RunsToSpan(line, d + 8, n, IsNameChar);
    PragmaTextParts(line, i, d, n);
  }

  /** The line disables the rule if and only if the rule is listed in the first pragma text of the line; where the
      pragma must be at the start of its scope, no more than five characters before it are no spaces. */
  lemma {:induction false} DisablesIff(line: string, scopeStart: bool, rule: string)
    requires ',' !in rule
    ensures Disables(line, scopeStart, rule) <==>
      exists i: nat, d: nat, n: nat ::
        && PragmaText(line, i, d, n) && (forall j: nat, e: nat, m: nat :: PragmaText(line, j, e, m) ==> i <= j)
        && (scopeStart ==> i - multiset(line[..i])[' '] <= 5) && Listed(line[d + 8..n], rule)
  {
    hide PragmaAt, Listed, At, Split;
    forall i: nat, d: nat, n: nat | PragmaText(line, i, d, n)
      ensures i < |line| && PragmaAt(line, i) == Some(line[d + 8..n])
    {
      PragmaTextFound(line, i, d, n);
    }
    hide PragmaText;
    var found := FindPragma(line, 0);
    if found.Some? {
      var start := found.value.start;
      PragmaFoundText(line, start);
      var d: nat, n: nat :| PragmaText(line, start, d, n);
      SplitHasListed(found.value.names, rule);
      assert found.value.names == line[d + 8..n];
    }
  }

  class ExpressionRuleViolation {
    const ruleId: string
    const startIndex: nat
    const endIndex: Option<nat>
    var startLine: nat
    var startColumn: nat
    var endLine: nat
    var endColumn: Option<nat>
    var lines: seq<string>
    var isDisabled: bool
    ghost var preparations: nat

    /** The expression starts at or before its end, and lies in the text. */
    ghost predicate InText(s: string) {
      startIndex <= |s| && (endIndex.Some? ==> startIndex <= endIndex.value <= |s|)
    }

    function FirstLine(s: string): nat {
      LineNumber(s, startIndex)
    }

    function LastLine(s: string): nat {
      if endIndex.Some? then LineNumber(s, endIndex.value) else FirstLine(s)
    }

    /** The pragma is at the start of the line before the violation, or anywhere on the violation's first line. */
    predicate DisabledIn(s: string)
      requires 1 <= FirstLine(s) <= LineCount(s)
    {
      || (FirstLine(s) > 1 && Disables(LineText(s, FirstLine(s) - 1), true, ruleId))
      || Disables(LineText(s, FirstLine(s)), false, ruleId)
    }

    /** The violation was prepared the recorded number of times, each time for the same text. */
    ghost predicate PreparedFor(s: string)
      reads this
    {
      && InText(s) && 1 <= FirstLine(s) <= LastLine(s) <= LineCount(s)
      && lines == Repeated(LinesBetween(s, FirstLine(s), LastLine(s)), preparations)
      && (preparations > 0 ==> startLine == FirstLine(s) && endLine == LastLine(s))
      && isDisabled == (preparations > 0 && DisabledIn(s))
    }

    constructor (ruleId: string, startIndex: nat, endIndex: Option<nat>, ghost s: string)
      requires startIndex <= |s| && (endIndex.Some? ==> startIndex <= endIndex.value <= |s|)
      ensures this.ruleId == ruleId && this.startIndex == startIndex && this.endIndex == endIndex
      ensures PreparedFor(s) && preparations == 0
    {
      this.ruleId, this.startIndex, this.endIndex := ruleId, startIndex, endIndex;
      startLine, startColumn, endLine, endColumn := 0, 0, 0, Some(0);
      lines, isDisabled, preparations := [], false, 0;
      new;
      NewlinesMonotone(s, startIndex, |s|);
      if endIndex.Some? {
        NewlinesMonotone(s, startIndex, endIndex.value);
        NewlinesMonotone(s, endIndex.value, |s|);
      }
    }

    /** prepare_results: sets the lines and columns, appends the texts of the lines and looks for the disable pragma. */
    method PrepareResults(stringLines: StringLines)
      requires stringLines.Valid() && PreparedFor(stringLines.text)
      modifies this
      ensures PreparedFor(stringLines.text) && preparations == old(preparations) + 1
      ensures startLine == LineNumber(stringLines.text, startIndex)
      ensures endLine == if endIndex.Some? then LineNumber(stringLines.text, endIndex.value) else startLine
      ensures 1 <= startLine <= LineCount(stringLines.text)
      ensures isDisabled
          <==> (startLine > 1 && Disables(LineText(stringLines.text, startLine - 1), true, ruleId))
               || Disables(LineText(stringLines.text, startLine), false, ruleId)
      ensures 1 <= startColumn && LineStart(stringLines.text, startIndex) + startColumn - 1 == startIndex
      ensures endColumn.Some? == endIndex.Some?
      ensures endIndex.Some? ==>
        1 <= endColumn.value && LineStart(stringLines.text, endIndex.value) + endColumn.value - 1 == endIndex.value
    {
      hide Disables, LineStart, LinesBetween, LineText;
      SetPlace(stringLines);
      hide LineNumber, LineCount;
      AppendLines(stringLines);
      MarkExpressionDisabled(stringLines);
      preparations := preparations + 1;
    }

    method SetPlace(stringLines: StringLines)
      requires stringLines.Valid()
      modifies this`startLine, this`startColumn, this`endLine, this`endColumn
      ensures startLine == FirstLine(stringLines.text) && endLine == LastLine(stringLines.text)
      ensures 1 <= startColumn && LineStart(stringLines.text, startIndex) + startColumn - 1 == startIndex
      ensures endColumn.Some? == endIndex.Some?
      ensures endIndex.Some? ==>
        1 <= endColumn.value && LineStart(stringLines.text, endIndex.value) + endColumn.value - 1 == endIndex.value
    {
      startLine := stringLines.IndexToLineNumber(startIndex);
      startColumn := stringLines.IndexToColumnNumber(startIndex);
      if endIndex.Some? {
        endLine := stringLines.IndexToLineNumber(endIndex.value);
        var column := stringLines.IndexToColumnNumber(endIndex.value);
        endColumn := Some(column);
      } else {
        endLine := startLine;
        endColumn := None;
      }
    }

    /** _mark_disabled. */
    method MarkDisabled(line: string, scopeStart: bool)
      modifies this`isDisabled
      ensures isDisabled == (old(isDisabled) || Disables(line, scopeStart, ruleId))
    {
      var pragmaMatch := FindPragma(line, 0);
      if pragmaMatch.None? {
        return;
      }
      var start := pragmaMatch.value.start;
      if scopeStart {
        var spacesCount := multiset(line[..start])[' '];
        var nonSpaceCount := start - spacesCount;
        if nonSpaceCount > 5 {
          return;
        }
      }
      var disabledRules := Split(pragmaMatch.value.names);
      for i := 0 to |disabledRules|
        invariant isDisabled == old(isDisabled) && ruleId !in disabledRules[..i]
      {
        if disabledRules[i] == ruleId {
          isDisabled := true;
          return;
        }
      }
    }

    /** _mark_expression_disabled. */
    method MarkExpressionDisabled(stringLines: StringLines)
      requires stringLines.Valid() && 1 <= FirstLine(stringLines.text) <= LineCount(stringLines.text)
      requires startLine == FirstLine(stringLines.text)
      modifies this`isDisabled
      ensures isDisabled == (old(isDisabled) || DisabledIn(stringLines.text))
    {
      hide Disables, LineText, LineCount;
      if startLine > 1 {
        var previous := stringLines.LineNumberToLine(startLine - 1);
        MarkDisabled(previous, true);
        if isDisabled {
          return;
        }
      }
      var line := stringLines.LineNumberToLine(startLine);
      MarkDisabled(line, false);
    }

    /** The loop of prepare_results. */
    method AppendLines(stringLines: StringLines)
      requires stringLines.Valid() && 1 <= startLine <= endLine <= LineCount(stringLines.text)
      modifies this`lines
      ensures lines == old(lines) + LinesBetween(stringLines.text, startLine, endLine)
    {
      ghost var s, before := stringLines.text, lines;
      NoLinesBetween(s, startLine);
      hide *;
      for lineNumber := startLine to endLine + 1
        invariant stringLines.Valid() && stringLines.text == s
        invariant lines == before + LinesBetween(s, startLine, lineNumber - 1)
      {
        var line := stringLines.LineNumberToLine(lineNumber);
        OneMoreLine(s, startLine, lineNumber);
        Associative(before, LinesBetween(s, startLine, lineNumber - 1), [line]);
        lines := lines + [line];
      }
    }

    /** After any number of preparations, each line of the expression is found where print_results looks for it. */
    lemma LineToPrint(s: string, n: nat)
      requires PreparedFor(s) && preparations >= 1 && startLine <= n <= endLine
      ensures 1 <= n <= LineCount(s) && n - startLine < |lines| && lines[n - startLine] == LineText(s, n)
    {
      hide LineText, LineCount, Repeated, Disables, LinesBetween;
      var all := LinesBetween(s, startLine, endLine);
      RepeatedBegins(all, preparations);
      LineBetween(s, startLine, endLine, n);
      assert all[n - startLine] == lines[n - startLine];
    }

    /** The lines that print_results prints: all lines of the expression, or only the first one. */
    method LinesToPrint(verbose: bool, ghost s: string) returns (printed: seq<string>)
      requires PreparedFor(s) && preparations >= 1
      ensures var first := LineNumber(s, startIndex);
        var last := if verbose && endIndex.Some? then LineNumber(s, endIndex.value) else first;
        1 <= first && last <= LineCount(s) && printed == LinesBetween(s, first, last)
    {
      hide LineText, LineCount, Repeated, Disables, DisabledIn;
      var end := if verbose then endLine + 1 else startLine + 1;
      printed := [];
      for lineNumber := startLine to end
        invariant printed == LinesBetween(s, startLine, lineNumber - 1)
      {
        LineToPrint(s, lineNumber);
        printed := printed + [lines[lineNumber - startLine]];
      }
    }
  }
}
