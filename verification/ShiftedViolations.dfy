/** Violations found in a part of a template, moved to their place in the template
    (scripts/safe_template_linter.py:2082-2127, 2198-2220). */
module ShiftedViolations {
  import opened Text
  import opened MakoContexts

  /** An expression object; its indexes are updated in place. */
  class Expression {
    var start: nat
    var end: Option<nat>

    constructor (start: nat, end: Option<nat>)
      ensures this.start == start && this.end == end
    {
      this.start, this.end := start, end;
    }

    method Move(offset: nat)
      modifies this
      ensures start == old(start) + offset
      ensures end == if old(end).None? then None else Some(old(end).value + offset)
    {
      start := start + offset;
      if end.Some? {
        end := Some(end.value + offset);
      }
    }
  }

  datatype Violation = Violation(rule: string, expression: Expression)

  /** The value of a violation: its rule and the range it points at. */
  datatype Finding = Finding(rule: string, start: nat, end: Option<nat>)

  function Moved(f: Finding, offset: nat): Finding {
    Finding(f.rule, f.start + offset, if f.end.None? then None else Some(f.end.value + offset))
  }

  function MovedAll(fs: seq<Finding>, offset: nat): (r: seq<Finding>)
    ensures |r| == |fs| && forall k :: 0 <= k < |fs| ==> r[k] == Moved(fs[k], offset)
  {
    seq(|fs|, k requires 0 <= k < |fs| => Moved(fs[k], offset))
  }

  function FindingOf(v: Violation): Finding
    reads v.expression
  {
    Finding(v.rule, v.expression.start, v.expression.end)
  }

  function FindingsOf(vs: seq<Violation>): (r: seq<Finding>)
    reads set v | v in vs :: v.expression
    ensures |r| == |vs| && forall k :: 0 <= k < |vs| ==> r[k] == FindingOf(vs[k])
  {
    seq(|vs|, k requires 0 <= k < |vs| reads (set v | v in vs :: v.expression) => FindingOf(vs[k]))
  }

  /** The offset, once for every violation that holds the expression object. */
  function Shift(vs: seq<Violation>, e: Expression, offset: nat): nat {
    if vs == [] then 0 else Shift(vs[..|vs| - 1], e, offset) + if vs[|vs| - 1].expression == e then offset else 0
  }

  /** The expression objects have moved once for each of the first i violations. */
  ghost predicate ShiftedBy(vs: seq<Violation>, i: nat, offset: nat, before: seq<Finding>)
    reads set v | v in vs :: v.expression
  {
    i <= |vs| == |before|
    && forall k :: 0 <= k < |vs| ==> FindingOf(vs[k]) == Moved(before[k], Shift(vs[..i], vs[k].expression, offset))
  }

  lemma {:induction false} NotYetShifted(vs: seq<Violation>, offset: nat)
    ensures ShiftedBy(vs, 0, offset, FindingsOf(vs))
  {
  }

  method MoveNext(vs: seq<Violation>, i: nat, offset: nat, ghost before: seq<Finding>)
    requires i < |vs| && ShiftedBy(vs, i, offset, before)
    modifies vs[i].expression
    ensures ShiftedBy(vs, i + 1, offset, before)
  {
    ShiftNext(vs, i, offset);
    hide Shift;
    vs[i].expression.Move(offset);
  }

  class Results {
    var violations: seq<Violation>

    constructor ()
      ensures violations == []
    {
      violations := [];
    }

    /** _shift_and_add_violations: adds the violations and moves every expression object once for each violation
        that holds it. */
    method ShiftAndAdd(other: seq<Violation>, offset: nat)
      modifies this, set v | v in other :: v.expression
      ensures violations == old(violations) + other
      ensures forall k :: 0 <= k < |other| ==>
        FindingOf(other[k]) == Moved(old(FindingOf(other[k])), Shift(other, other[k].expression, offset))
    {
      ghost var before := FindingsOf(other);
      NotYetShifted(other, offset);
      hide Shift, Moved, FindingsOf;
      for i := 0 to |other|
        invariant violations == old(violations) + other[..i]
        invariant ShiftedBy(other, i, offset, before)
      {
        var violation := other[i];
        MoveNext(other, i, offset, before);
        violations := violations + [Violation(violation.rule, violation.expression)];
      }
      assert other[..|other|] == other;
    }
  }

  lemma {:induction false} ShiftNext(vs: seq<Violation>, i: nat, offset: nat)
    requires i < |vs|
    ensures forall e :: Shift(vs[..i + 1], e, offset)
                     == Shift(vs[..i], e, offset) + if vs[i].expression == e then offset else 0
  {
    assert vs[..i + 1][..i] == vs[..i];
  }

  /** The violations that hold the object. */
  function Holders(vs: seq<Violation>, e: Expression): set<nat> {
    set k: nat | k < |vs| && vs[k].expression == e
  }

  lemma {:induction false} HoldersNext(vs: seq<Violation>, e: Expression)
    requires vs != []
    ensures var n := |vs| - 1;
      |Holders(vs, e)| == |Holders(vs[..n], e)| + if vs[n].expression == e then 1 else 0
  {
    var n := |vs| - 1;
    var before, all := Holders(vs[..n], e), Holders(vs, e);
    forall k: nat
      ensures k in all <==> k in before || (k == n && vs[n].expression == e)
    {
    }
    assert n !in before;
    hide Holders;
    assert all == if vs[n].expression == e then before + {n} else before;
  }

  /** An object moves by the offset as often as there are violations that hold it. */
  lemma {:induction false} ShiftCounts(vs: seq<Violation>, e: Expression, offset: nat)
    ensures Shift(vs, e, offset) == |Holders(vs, e)| * offset
  {
    if vs == [] {
      assert Holders(vs, e) == {};
    } else {
      var n := |vs| - 1;
      ShiftCounts(vs[..n], e, offset);
      HoldersNext(vs, e);
      hide Holders;
      var m := |Holders(vs[..n], e)|;
      assert (m + 1) * offset == m * offset + offset;
    }
  }

  // ---------- Linting the JavaScript contexts ----------

  /** Violations that hold distinct objects. */
  ghost predicate Unshared(vs: seq<Violation>) {
    forall j, k :: 0 <= j < k < |vs| ==> vs[j].expression != vs[k].expression
  }

  lemma {:induction false} UnsharedOnce(vs: seq<Violation>, e: Expression, offset: nat)
    requires Unshared(vs)
    ensures Shift(vs, e, offset) == if exists k :: 0 <= k < |vs| && vs[k].expression == e then offset else 0
  {
    if vs != [] {
      var n := |vs| - 1;
      UnsharedOnce(vs[..n], e, offset);
      assert forall k :: 0 <= k < n ==> vs[..n][k] == vs[k];
    }
  }

  /** The linter's results for a piece of code, each on an object of its own. */
  method Lint(code: string, lint: string -> seq<Finding>) returns (vs: seq<Violation>)
    ensures FindingsOf(vs) == lint(code) && Unshared(vs) && forall v :: v in vs ==> fresh(v.expression)
  {
    vs := [];
    var fs := lint(code);
    for i := 0 to |fs|
      invariant |vs| == i && Unshared(vs) && forall v :: v in vs ==> fresh(v.expression)
      invariant forall k :: 0 <= k < i ==> FindingOf(vs[k]) == fs[k]
    {
      var expression := new Expression(fs[i].start, fs[i].end);
      vs := vs + [Violation(fs[i].rule, expression)];
    }
  }

  /** The slices lie in the template. */
  ghost predicate InTemplate(template: string, slices: seq<Slice>) {
    forall k :: 0 <= k < |slices| ==> slices[k].start <= slices[k].end <= |template|
  }

  /** The text of a slice. */
  function Code(template: string, slice: Slice): string
    requires slice.start <= slice.end <= |template|
  {
    template[slice.start..slice.end]
  }

  /** What linting the slices of a template finds, at the places in the template. */
  function FindingsIn(template: string, slices: seq<Slice>, lint: string -> seq<Finding>): seq<Finding>
    requires InTemplate(template, slices)
  {
    if slices == [] then []
    else
      var last := slices[|slices| - 1];
      FindingsIn(template, slices[..|slices| - 1], lint) + MovedAll(lint(Code(template, last)), last.start)
  }

  lemma {:induction false} FindingsInNext(template: string, slices: seq<Slice>, slice: Slice,
                                          lint: string -> seq<Finding>)
    requires InTemplate(template, slices) && slice.start <= slice.end <= |template|
    ensures InTemplate(template, slices + [slice])
    ensures FindingsIn(template, slices + [slice], lint)
         == FindingsIn(template, slices, lint) + MovedAll(lint(Code(template, slice)), slice.start)
  {
  }

  /** The findings that were added since there were n violations. */
  function Added(results: Results, n: nat): seq<Finding>
    requires n <= |results.violations|
    reads results, set v | v in results.violations[n..] :: v.expression
  {
    FindingsOf(results.violations[n..])
  }

  lemma {:induction false} FindingsOfBoth(a: seq<Violation>, b: seq<Violation>)
    ensures FindingsOf(a + b) == FindingsOf(a) + FindingsOf(b)
  {
  }

  /** The linter's results for a piece of code, moved by its offset. */
  method LintAndMove(code: string, offset: nat, results: Results,
                     lint: string -> seq<Finding>) returns (vs: seq<Violation>)
    modifies results
    ensures results.violations == old(results.violations) + vs && forall v :: v in vs ==> fresh(v.expression)
    ensures FindingsOf(vs) == MovedAll(lint(code), offset)
  {
    vs := Lint(code, lint);
    ghost var fs := FindingsOf(vs);
    results.ShiftAndAdd(vs, offset);
    forall k | 0 <= k < |vs|
      ensures FindingOf(vs[k]) == Moved(fs[k], offset)
    {
      UnsharedOnce(vs, vs[k].expression, offset);
    }
  }

  /** _check_javascript_context: what is added is what the linter found, moved by the offset. */
  method CheckJavascriptContext(code: string, offset: nat, results: Results, lint: string -> seq<Finding>, ghost n: nat)
    requires n <= |results.violations|
    modifies results
    ensures n <= |results.violations| && results.violations[..n] == old(results.violations[..n])
    ensures Added(results, n) == old(Added(results, n)) + MovedAll(lint(code), offset)
  {
    hide MovedAll, Shift;
    ghost var before, findings := results.violations, Added(results, n);
    var vs := LintAndMove(code, offset, results, lint);
    assert results.violations[n..] == before[n..] + vs;
    assert FindingsOf(before[n..]) == findings;
    hide FindingsOf;
    FindingsOfBoth(before[n..], vs);
  }

  lemma {:induction false} SlicesStep(contexts: seq<Context>, i: nat, open: Option<nat>, length: nat, done: seq<Slice>)
    requires i <= |contexts|
    ensures var all := done + SlicesFrom(contexts, i, open, length);
      if i == |contexts| then all == if open.Some? then done + [Slice(open.value, length)] else done
      else if contexts[i].kind.JavaScript? then
        all == done + SlicesFrom(contexts, i + 1, if open.None? then Some(contexts[i].index) else open, length)
      else
        all == (if open.Some? then done + [Slice(open.value, contexts[i].index)] else done)
               + SlicesFrom(contexts, i + 1, None, length)
  {
  }

  /** _check_javascript_contexts: the violations added are those of the slices, at their places in the template. */
  method CheckJavascriptContexts(template: string, contexts: seq<Context>, results: Results,
                                 lint: string -> seq<Finding>)
    requires ValidContexts(contexts, |template|)
    modifies results
    ensures |old(results.violations)| <= |results.violations|
    ensures results.violations[..|old(results.violations)|] == old(results.violations)
    ensures InTemplate(template, Slices(contexts, |template|))
    ensures Added(results, |old(results.violations)|) == FindingsIn(template, Slices(contexts, |template|), lint)
  {
    ghost var n, length := |results.violations|, |template|;
    ghost var all := Slices(contexts, length);
    SlicesOrdered(contexts, length);
    var javascriptStart: Option<nat> := None;
    ghost var done: seq<Slice> := [];
    assert [] + all == all && Added(results, n) == [] == FindingsIn(template, [], lint);
    assert InTemplate(template, []);
    hide Added, FindingsIn, FindingsOf, MovedAll, SlicesFrom, InTemplate, OrderedSlices, Code;
    for i := 0 to |contexts|
      invariant n <= |results.violations| && results.violations[..n] == old(results.violations)
      invariant javascriptStart.Some? ==> i > 0 && javascriptStart.value <= contexts[i - 1].index
      invariant done + SlicesFrom(contexts, i, javascriptStart, length) == all
      invariant InTemplate(template, done) && Added(results, n) == FindingsIn(template, done, lint)
    {
      SlicesStep(contexts, i, javascriptStart, length, done);
      if contexts[i].kind == JavaScript {
        if javascriptStart.None? {
          javascriptStart := Some(contexts[i].index);
        }
      } else {
        if javascriptStart.Some? {
          var slice := Slice(javascriptStart.value, contexts[i].index);
          FindingsInNext(template, done, slice, lint);
          CheckJavascriptContext(Code(template, slice), slice.start, results, lint, n);
          done := done + [slice];
          javascriptStart := None;
        }
      }
    }
    SlicesStep(contexts, |contexts|, javascriptStart, length, done);
    if javascriptStart.Some? {
      var slice := Slice(javascriptStart.value, |template|);
      FindingsInNext(template, done, slice, lint);
      CheckJavascriptContext(Code(template, slice), slice.start, results, lint, n);
      done := done + [slice];
    }
    assert done == all;
  }

  /** The linter reports places inside the code it is given. An expression whose end was not found has no end. */
  ghost predicate InBounds(code: string, fs: seq<Finding>) {
    forall f :: f in fs ==> f.start <= |code| && (f.end.Some? ==> f.start <= f.end.value <= |code|)
  }

  lemma {:induction false} SliceOfSlice(s: string, a: nat, b: nat, i: nat, j: nat)
    requires a <= b <= |s| && i <= j <= b - a
    ensures s[a..b][i..j] == s[a + i..a + j]
  {
    var part, all := s[a..b][i..j], s[a + i..a + j];
    assert |part| == |all|;
    forall k | 0 <= k < |part| ensures part[k] == all[k] {
      assert part[k] == s[a..b][i + k] == s[a + i + k];
    }
  }

  /** m is f, a finding in the slice, at its place in the template: what follows is the same text in both, up to
      the end of the slice and up to the end of the finding, if it has one. */
  ghost predicate SameText(template: string, slice: Slice, f: Finding, m: Finding) {
    && slice.start <= slice.end <= |template|
    && m.rule == f.rule && m.start == slice.start + f.start && (m.end.Some? <==> f.end.Some?)
    && (f.end.Some? ==> m.end.value == slice.start + f.end.value)
    && var code := Code(template, slice);
      && f.start <= |code| && template[m.start..slice.end] == code[f.start..]
      && (f.end.Some? ==>
            f.start <= f.end.value <= |code| && template[m.start..m.end.value] == code[f.start..f.end.value])
  }

  lemma {:induction false} MovedHasSameText(template: string, slice: Slice, f: Finding)
    requires slice.start <= slice.end <= |template| && InBounds(Code(template, slice), [f])
    ensures SameText(template, slice, f, Moved(f, slice.start))
  {
    var length := slice.end - slice.start;
    assert f in [f];
    SliceOfSlice(template, slice.start, slice.end, f.start, length);
    if f.end.Some? {
      SliceOfSlice(template, slice.start, slice.end, f.start, f.end.value);
    }
    assert Code(template, slice)[f.start..length] == Code(template, slice)[f.start..];
  }

  lemma {:induction false} FindingsComeFromSlices(template: string, slices: seq<Slice>, lint: string -> seq<Finding>,
                                                  m: Finding)
    returns (slice: Slice, f: Finding)
    requires InTemplate(template, slices) && m in FindingsIn(template, slices, lint)
    ensures slice in slices && slice.start <= slice.end <= |template|
    ensures f in lint(Code(template, slice)) && m == Moved(f, slice.start)
  {
    var n := |slices| - 1;
    slice := slices[n];
    var code := Code(template, slice);
    if m in MovedAll(lint(code), slice.start) {
      var k :| 0 <= k < |lint(code)| && m == Moved(lint(code)[k], slice.start);
      f := lint(code)[k];
    } else {
      slice, f := FindingsComeFromSlices(template, slices[..n], lint, m);
    }
  }

  /** Nothing is lost: finding i of slice k comes after all findings of the slices before it, and those are as many as
      the linter reports for them. */
  lemma {:induction false} FindingOfSlice(template: string, slices: seq<Slice>, lint: string -> seq<Finding>, k: nat)
    requires InTemplate(template, slices) && k < |slices|
    ensures InTemplate(template, slices[..k]) && InTemplate(template, slices[..k + 1])
    ensures var all, before := FindingsIn(template, slices, lint), |FindingsIn(template, slices[..k], lint)|;
      var own := lint(template[slices[k].start..slices[k].end]);
      && |FindingsIn(template, slices[..k + 1], lint)| == before + |own| <= |all|
      && forall i: nat :: i < |own| ==> StandsMoved(all, before + i, own[i], slices[k].start)
  {
    var n := |slices| - 1;
    if k < n {
      FindingOfSlice(template, slices[..n], lint, k);
      assert slices[..n][..k] == slices[..k] && slices[..n][..k + 1] == slices[..k + 1];
    } else {
      assert slices[..k + 1] == slices;
    }
  }

  predicate StandsMoved(fs: seq<Finding>, position: nat, f: Finding, offset: nat) {
    && position < |fs|
    && fs[position].rule == f.rule && fs[position].start == offset + f.start
    && fs[position].end == if f.end.Some? then Some(offset + f.end.value) else None
  }

  /** Every finding is one of some slice's, moved: it points at the same text in the template as in the slice, and
      every index from its start to its end, or to the end of the slice when it has none, is one whose context is
      JavaScript. */
  lemma {:induction false} FindingsPointIntoJavaScript(template: string, contexts: seq<Context>,
                                                       lint: string -> seq<Finding>, m: Finding)
    returns (slice: Slice, f: Finding)
    requires ValidContexts(contexts, |template|) && InTemplate(template, Slices(contexts, |template|))
    requires forall code :: InBounds(code, lint(code))
    requires m in FindingsIn(template, Slices(contexts, |template|), lint)
    ensures slice in Slices(contexts, |template|) && slice.start <= slice.end <= |template|
    ensures f in lint(Code(template, slice)) && SameText(template, slice, f, m)
    ensures forall p: nat :: m.start <= p < (if m.end.Some? then m.end.value else slice.end) ==>
      IsContextOf(contexts, p, JavaScript)
  {
    slice, f := FindingsComeFromSlices(template, Slices(contexts, |template|), lint, m);
    assert InBounds(Code(template, slice), lint(Code(template, slice)));
    hide FindingsIn, Slices, SlicesFrom;
    MovedHasSameText(template, slice, f);
    JavaScriptInside(contexts, |template|, slice);
  }

  lemma {:induction false} JavaScriptInside(contexts: seq<Context>, length: nat, slice: Slice)
    requires ValidContexts(contexts, length) && slice in Slices(contexts, length) && slice.end <= length
    ensures forall p: nat :: slice.start <= p < slice.end ==> IsContextOf(contexts, p, JavaScript)
  {
    var all := Slices(contexts, length);
    forall p: nat | slice.start <= p < slice.end
      ensures IsContextOf(contexts, p, JavaScript)
    {
      var j :| 0 <= j < |all| && all[j] == slice;
      assert Held(all, p);
      SlicesHoldJavaScript(contexts, length, p);
    }
  }
}
