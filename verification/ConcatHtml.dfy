/** Merging the places where strings with HTML are concatenated, one violation per line
    (scripts/safe_template_linter.py:1353-1417). */
module ConcatHtml {
  import opened Text
  import opened StringLines

  /** A match of the regular expression, or the expression of a violation. */
  datatype Range = Range(start: nat, end: nat)

  /** The matches as a search gives them: in order, not empty, not overlapping, inside the text. */
  ghost predicate InOrder(s: string, matches: seq<Range>) {
    && (forall k :: 0 <= k < |matches| ==> matches[k].start < matches[k].end <= |s|)
    && (forall j, k :: 0 <= j < k < |matches| ==> matches[j].end <= matches[k].start)
  }

  function LineOf(s: string, r: Range): nat {
    LineNumber(s, r.start)
  }

  /** Matches merged one after the other: a match on the line of the last violation extends it. */
  function Merge(s: string, matches: seq<Range>): seq<Range> {
    if matches == [] then []
    else
      var n := |matches| - 1;
      var m, before := matches[n], Merge(s, matches[..n]);
      if before != [] && LineOf(s, before[|before| - 1]) == LineOf(s, m) then
        before[..|before| - 1] + [Range(before[|before| - 1].start, m.end)]
      else before + [m]
  }

  /** _check_concat_with_html, given the matches. */
  method CheckConcatWithHtml(fileContents: string, matches: seq<Range>) returns (violations: seq<Range>)
    ensures violations == Merge(fileContents, matches)
  {
    var lines := new StringLines(fileContents);
    var lastExpression: Option<Range> := None;
    violations := [];
    for i := 0 to |matches|
      invariant lines.Valid() && lines.text == fileContents
      invariant lastExpression.None? ==> violations == [] && i == 0
      invariant Merge(fileContents, matches[..i])
             == violations + if lastExpression.None? then [] else [lastExpression.value]
    {
      assert matches[..i + 1][..i] == matches[..i];
      var foundNewViolation := false;
      if lastExpression.Some? {
        var lastLine := lines.IndexToLineNumber(lastExpression.value.start);
        var line := lines.IndexToLineNumber(matches[i].start);
        if lastLine == line {
          lastExpression := Some(Range(lastExpression.value.start, matches[i].end));
        } else {
          violations := violations + [lastExpression.value];
          foundNewViolation := true;
        }
      } else {
        foundNewViolation := true;
      }
      if foundNewViolation {
        lastExpression := Some(Range(matches[i].start, matches[i].end));
      }
    }
    assert matches[..|matches|] == matches;
    if lastExpression.Some? {
      violations := violations + [lastExpression.value];
    }
  }

  // ---------- One violation per line ----------

  lemma {:induction false} LinesDoNotGoBack(s: string, matches: seq<Range>, j: nat, k: nat)
    requires InOrder(s, matches) && j <= k < |matches|
    ensures LineOf(s, matches[j]) <= LineOf(s, matches[k])
  {
    NewlinesMonotone(s, matches[j].start, matches[k].start);
  }

  /** The last match is added by extending the last violation or by adding one. */
  lemma {:induction false} MergeLast(s: string, matches: seq<Range>)
    requires matches != []
    ensures var n := |matches| - 1;
      var m, vs, before := matches[n], Merge(s, matches), Merge(s, matches[..n]);
      && vs != [] && LineOf(s, vs[|vs| - 1]) == LineOf(s, m)
      && (|vs| == |before|
          || (|vs| == |before| + 1 && (before != [] ==> LineOf(s, before[|before| - 1]) != LineOf(s, m))))
      && (forall k :: 0 <= k < |vs| - 1 ==> vs[k] == before[k])
      && (|vs| == |before| ==> LineOf(s, before[|before| - 1]) == LineOf(s, m))
  {
  }

  lemma {:induction false} InOrderBefore(s: string, matches: seq<Range>)
    requires InOrder(s, matches) && matches != []
    ensures InOrder(s, matches[..|matches| - 1])
  {
  }

  ghost predicate LinesIncrease(s: string, vs: seq<Range>) {
    forall j, k :: 0 <= j < k < |vs| ==> LineOf(s, vs[j]) < LineOf(s, vs[k])
  }

  lemma {:induction false} LinesIncreaseStep(s: string, before: seq<Range>, vs: seq<Range>)
    requires LinesIncrease(s, before) && vs != []
    requires forall k :: 0 <= k < |vs| - 1 ==> k < |before| && vs[k] == before[k]
    requires before != [] && LineOf(s, before[|before| - 1]) <= LineOf(s, vs[|vs| - 1])
    requires |vs| == |before| || (|vs| == |before| + 1 && LineOf(s, before[|before| - 1]) < LineOf(s, vs[|vs| - 1]))
    ensures LinesIncrease(s, vs)
  {
  }

  /** Violations start on strictly increasing lines. */
  lemma {:induction false} ViolationLinesIncrease(s: string, matches: seq<Range>)
    requires InOrder(s, matches)
    ensures LinesIncrease(s, Merge(s, matches))
    ensures matches != [] ==>
      var vs := Merge(s, matches);
      vs != [] && LineOf(s, vs[|vs| - 1]) == LineOf(s, matches[|matches| - 1])
  {
    if matches != [] {
      hide LineOf, InOrder, LinesIncrease;
      var n := |matches| - 1;
      InOrderBefore(s, matches);
      ViolationLinesIncrease(s, matches[..n]);
      MergeLast(s, matches);
      if n > 0 {
        LinesDoNotGoBack(s, matches, n - 1, n);
        LinesIncreaseStep(s, Merge(s, matches[..n]), Merge(s, matches));
      } else {
        OneViolation(s, matches);
      }
    }
  }

  lemma {:induction false} OneViolation(s: string, matches: seq<Range>)
    requires |matches| == 1
    ensures |Merge(s, matches)| == 1 && LinesIncrease(s, Merge(s, matches))
  {
  }

  /** The violation stands for the matches a to b: it reaches from the start of the first to the end of the last,
      and these are all the matches that start on its line. */
  ghost predicate StandsFor(s: string, matches: seq<Range>, v: Range, a: nat, b: nat) {
    && a <= b < |matches| && v == Range(matches[a].start, matches[b].end)
    && forall i :: 0 <= i < |matches| ==> (a <= i <= b <==> LineOf(s, matches[i]) == LineOf(s, v))
  }

  lemma {:induction false} StillStandsFor(s: string, matches: seq<Range>, v: Range, a: nat, b: nat)
    requires matches != [] && StandsFor(s, matches[..|matches| - 1], v, a, b)
    requires LineOf(s, matches[|matches| - 1]) != LineOf(s, v)
    ensures StandsFor(s, matches, v, a, b)
  {
  }

  lemma {:induction false} ExtendedStandsFor(s: string, matches: seq<Range>, v: Range, a: nat, b: nat)
    requires matches != [] && StandsFor(s, matches[..|matches| - 1], v, a, b) && |matches| > 1
    requires LineOf(s, matches[|matches| - 1]) == LineOf(s, v) == LineOf(s, matches[|matches| - 2])
    ensures StandsFor(s, matches, Range(v.start, matches[|matches| - 1].end), a, |matches| - 1)
  {
  }

  /** Every violation is a maximal run of matches that start on one line. */
  lemma {:induction false} ViolationIsMaximalRun(s: string, matches: seq<Range>, k: nat) returns (a: nat, b: nat)
    requires InOrder(s, matches) && k < |Merge(s, matches)|
    ensures StandsFor(s, matches, Merge(s, matches)[k], a, b)
  {
    var n := |matches| - 1;
    var m, before := matches[n], Merge(s, matches[..n]);
    ViolationLinesIncrease(s, matches[..n]);
    forall i | 0 <= i < n ensures LineOf(s, matches[i]) <= LineOf(s, matches[n - 1]) <= LineOf(s, m) {
      LinesDoNotGoBack(s, matches, i, n - 1);
      LinesDoNotGoBack(s, matches, n - 1, n);
    }
    var sameLine := before != [] && LineOf(s, before[|before| - 1]) == LineOf(s, m);
    hide LineOf, StandsFor;
    if k == |before| {
      a, b := n, n;
      NewStandsFor(s, matches);
    } else {
      a, b := ViolationIsMaximalRun(s, matches[..n], k);
      if sameLine && k == |before| - 1 {
        ExtendedStandsFor(s, matches, before[k], a, b);
        b := n;
      } else {
        StillStandsFor(s, matches, before[k], a, b);
      }
    }
  }

  lemma {:induction false} NewStandsFor(s: string, matches: seq<Range>)
    requires matches != []
    requires forall i :: 0 <= i < |matches| - 1 ==> LineOf(s, matches[i]) < LineOf(s, matches[|matches| - 1])
    ensures StandsFor(s, matches, matches[|matches| - 1], |matches| - 1, |matches| - 1)
  {
  }

  lemma {:induction false} LineHasViolation(s: string, matches: seq<Range>, i: nat) returns (k: nat)
    requires InOrder(s, matches) && i < |matches|
    ensures k < |Merge(s, matches)| && LineOf(s, Merge(s, matches)[k]) == LineOf(s, matches[i])
  {
    var n := |matches| - 1;
    ViolationLinesIncrease(s, matches);
    MergeLast(s, matches);
    InOrderBefore(s, matches);
    hide LineOf, Merge, InOrder, LinesIncrease;
    if i == n {
      k := |Merge(s, matches)| - 1;
    } else {
      k := LineHasViolation(s, matches[..n], i);
    }
  }

  /** Every match is inside exactly one violation, and outside all the others. */
  lemma {:induction false} EachMatchInOneViolation(s: string, matches: seq<Range>, i: nat) returns (k: nat)
    requires InOrder(s, matches) && i < |matches|
    ensures var vs := Merge(s, matches);
      && k < |vs| && vs[k].start <= matches[i].start && matches[i].end <= vs[k].end
      && forall j :: 0 <= j < |vs| && j != k ==> matches[i].end <= vs[j].start || vs[j].end <= matches[i].start
  {
    var vs := Merge(s, matches);
    k := LineHasViolation(s, matches, i);
    ViolationLinesIncrease(s, matches);
    hide LineOf, Merge;
    var a, b := ViolationIsMaximalRun(s, matches, k);
    forall j: nat | j < |vs| && j != k
      ensures matches[i].end <= vs[j].start || vs[j].end <= matches[i].start
    {
      var c, d := ViolationIsMaximalRun(s, matches, j);
      assert LineOf(s, vs[j]) != LineOf(s, vs[k]);
    }
  }

  /** In line numbers: violation k reaches from the start of match a to the end of match b, a to b are the matches that
      start on the line of match a, and the violations before it start on earlier lines. */
  lemma {:induction false} ViolationsByLineNumber(s: string, matches: seq<Range>, k: nat) returns (a: nat, b: nat)
    requires InOrder(s, matches) && k < |Merge(s, matches)|
    ensures var vs := Merge(s, matches);
      && a <= b < |matches| && vs[k].start == matches[a].start && vs[k].end == matches[b].end
      && (forall i :: 0 <= i < |matches| ==>
            (a <= i <= b <==> LineNumber(s, matches[i].start) == LineNumber(s, matches[a].start)))
      && forall j :: 0 <= j < k ==> LineNumber(s, vs[j].start) < LineNumber(s, vs[k].start)
  {
    hide Merge, InOrder, LineNumber;
    a, b := ViolationIsMaximalRun(s, matches, k);
    ViolationLinesIncrease(s, matches);
    var vs := Merge(s, matches);
    assert forall r: Range :: LineOf(s, r) == LineNumber(s, r.start);
    assert LineOf(s, vs[k]) == LineOf(s, matches[a]);
  }
}
