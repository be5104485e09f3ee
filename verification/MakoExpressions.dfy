/** Finding the expressions of a Mako template (scripts/safe_template_linter.py:2436-2485). */
module MakoExpressions {
  import opened Text
  import opened StringLines
  import opened ParseStrings
  import opened ClosingChar

  const START_DELIM := "${"
  const BRACES := Pair('{', '}')

  /** MakoTemplateLinter.LINE_COMMENT_DELIM. */
  const COMMENT: Option<Delimiter> := Some("##")

  /** An expression found at `start`; `end`, `text` and `strings` are set when it could be parsed. */
  datatype MakoExpression = MakoExpression(start: nat, end: Option<nat>, text: Option<string>,
                                           strings: seq<ParseString>)

  // ---------- Specification ----------

  predicate LiveAt(s: string, i: nat) {
    Live(s, COMMENT, i)
  }

  /** An expression begins at p: the start delimiter stands there, on a line that is not commented out. */
  predicate BeginsAt(s: string, p: nat): (b: bool)
    ensures b ==> p + 2 <= |s| && s[p] == '$' && s[p + 1] == '{'
  {
    assert At(s, START_DELIM, p) ==> s[p + 0] == START_DELIM[0] && s[p + 1] == START_DELIM[1];
    At(s, START_DELIM, p) && LiveAt(s, p)
  }

  /** The brace that closes the expression that begins at p. */
  function ClosingOf(s: string, p: nat): (r: Option<Closing>)
    ensures r.Some? ==> p + 2 <= r.value.index < |s| && s[r.value.index] == '}' && LiveAt(s, r.value.index)
  {
    Scan(s, NotCommented(s, COMMENT), BRACES, p + 2, 0)
  }

  function ExpressionAt(s: string, p: nat): (e: MakoExpression)
    requires p + 2 <= |s|
    ensures e.start == p && (e.end.Some? ==> p + 2 < e.end.value <= |s|)
  {
    match ClosingOf(s, p)
    case None => MakoExpression(p, None, None, [])
    case Some(closing) =>
      MakoExpression(p, Some(closing.index + 1), Some(s[p..closing.index + 1]), closing.strings)
  }

  /** The index at which the search goes on after an expression. */
  function After(e: MakoExpression): nat {
    if e.end.Some? then e.end.value else e.start + 2
  }

  /** The expressions from i on, found by visiting every index in turn. */
  function Expressions(s: string, i: nat): seq<MakoExpression>
    decreases |s| - i
  {
    if i >= |s| then []
    else if BeginsAt(s, i) then [ExpressionAt(s, i)] + Expressions(s, After(ExpressionAt(s, i)))
    else Expressions(s, i + 1)
  }

  // ---------- Soundness, order and completeness ----------

  /** Each expression begins where one may begin and is the one that begins there; no two overlap. */
  ghost predicate Ordered(s: string, es: seq<MakoExpression>, from: nat) {
    && (forall k :: 0 <= k < |es| ==> from <= es[k].start && BeginsAt(s, es[k].start))
    && (forall k :: 0 <= k < |es| ==> es[k] == ExpressionAt(s, es[k].start))
    && (forall j, k :: 0 <= j < k < |es| ==> After(es[j]) <= es[k].start)
  }

  /** A parsed expression is reported with its text, from the start delimiter to a closing brace on an uncommented
      line. */
  lemma {:induction false} ParsedExpressionText(s: string, p: nat)
    requires BeginsAt(s, p) && ExpressionAt(s, p).end.Some?
    ensures var e := ExpressionAt(s, p);
      && e.text == Some(s[p..e.end.value]) && START_DELIM <= e.text.value
      && e.text.value[|e.text.value| - 1] == '}' && LiveAt(s, e.end.value - 1)
  {
    hide BeginsAt, LiveAt, ClosingOf;
    SliceEnds(s, p, ExpressionAt(s, p).end.value);
  }

  lemma {:induction false} SliceEnds(s: string, p: nat, end: nat)
    requires p + 2 < end <= |s| && s[p] == '$' && s[p + 1] == '{'
    ensures START_DELIM <= s[p..end] && s[p..end][|s[p..end]| - 1] == s[end - 1]
  {
  }

  /** An expression begins where "${" stands on a line that is not commented out by "##". */
  lemma {:induction false} BeginsAtIff(s: string, p: nat)
    ensures BeginsAt(s, p) <==> p + 1 < |s| && s[p] == '$' && s[p + 1] == '{' && Live(s, Some("##"), p)
  {
    hide Live;
    assert p + 1 < |s| && s[p] == '$' && s[p + 1] == '{' ==> s[p..p + 2] == START_DELIM;
    StandsAtIff(s, START_DELIM, p);
  }

  /** Where an expression ends: just after the first closing brace that closes more braces than were opened behind
      the start delimiter, of those outside literals and commented lines. Without one it is not parsed. */
  lemma {:induction false} ExpressionEndsAtBrace(s: string, p: nat)
    requires BeginsAt(s, p)
    ensures var e := ExpressionAt(s, p);
      var brackets := Brackets(s, NotCommented(s, Some("##")), Pair('{', '}'), p + 2);
      FirstUnmatched(brackets, 0, if e.end.None? then None else Some(e.end.value - 1))
  {
    hide BeginsAt, Scan, FirstUnmatched, Brackets;
    ScanFindsFirstUnmatched(s, NotCommented(s, COMMENT), BRACES, p + 2, 0);
  }

  /** The strings reported with an expression are the literals behind the start delimiter and before its end. */
  lemma {:induction false} ExpressionStrings(s: string, p: nat)
    requires BeginsAt(s, p)
    ensures match ExpressionAt(s, p).end
      case None => ExpressionAt(s, p).text == None && ExpressionAt(s, p).strings == []
      case Some(end) =>
        LiteralsBetween(s, NotCommented(s, Some("##")), Pair('{', '}'), p + 2, end - 1, ExpressionAt(s, p).strings)
  {
    hide BeginsAt, Scan, LiteralsBetween;
    ScanCollectsLiterals(s, NotCommented(s, COMMENT), BRACES, p + 2, 0);
  }

  /** p is the start of e, or inside it if it was parsed. */
  predicate Covers(e: MakoExpression, p: nat) {
    p == e.start || (e.end.Some? && e.start < p < e.end.value)
  }

  lemma {:induction false} ExpressionsOrdered(s: string, i: nat)
    ensures Ordered(s, Expressions(s, i), i)
    decreases |s| - i
  {
    hide ExpressionAt, BeginsAt;
    if i < |s| {
      if BeginsAt(s, i) {
        ExpressionsOrdered(s, After(ExpressionAt(s, i)));
      } else {
        ExpressionsOrdered(s, i + 1);
      }
    }
  }

  /** Every start delimiter on an uncommented line is a reported start or inside a parsed expression. */
  lemma {:induction false} ExpressionsComplete(s: string, i: nat, p: nat)
    requires i <= p && BeginsAt(s, p)
    ensures exists k :: 0 <= k < |Expressions(s, i)| && Covers(Expressions(s, i)[k], p)
    decreases |s| - i
  {
    hide ExpressionAt, BeginsAt;
    if BeginsAt(s, i) {
      var e := ExpressionAt(s, i);
      var rest := Expressions(s, After(e));
      var all := Expressions(s, i);
      assert all == [e] + rest;
      if After(e) <= p {
        ExpressionsComplete(s, After(e), p);
        var k :| 0 <= k < |rest| && Covers(rest[k], p);
        assert Covers(all[k + 1], p);
      } else {
        assert p != i + 1 by {
          assert s[i + 1] == '{' && s[p] == '$';
        }
        assert Covers(all[0], p);
      }
    } else {
      assert i != p && Expressions(s, i) == Expressions(s, i + 1);
      ExpressionsComplete(s, i + 1, p);
    }
  }

  /** Every place from i on at which an expression may begin is the start of one of these, or inside one. */
  ghost predicate Complete(s: string, es: seq<MakoExpression>, i: nat) {
    forall p: nat :: i <= p && BeginsAt(s, p) ==> exists k :: 0 <= k < |es| && Covers(es[k], p)
  }

  lemma {:induction false} TailOrdered(s: string, es: seq<MakoExpression>, i: nat)
    requires Ordered(s, es, i) && es != []
    ensures Ordered(s, es[1..], After(es[0])) && i <= es[0].start < After(es[0]) && BeginsAt(s, es[0].start)
  {
  }

  lemma {:induction false} TailComplete(s: string, es: seq<MakoExpression>, i: nat)
    requires Complete(s, es, i) && es != [] && i <= es[0].start < After(es[0])
    ensures Complete(s, es[1..], After(es[0]))
  {
  }

  lemma {:induction false} HeadBegins(s: string, es: seq<MakoExpression>, i: nat)
    requires Ordered(s, es, i) && Complete(s, es, i) && BeginsAt(s, i)
    ensures es != [] && es[0] == ExpressionAt(s, i)
  {
    hide ExpressionAt, BeginsAt;
    var k :| 0 <= k < |es| && Covers(es[k], i);
    TailOrdered(s, es, i);
    assert k > 0 ==> After(es[0]) <= es[k].start;
  }

  lemma {:induction false} NothingBeginsHere(s: string, es: seq<MakoExpression>, i: nat)
    requires Ordered(s, es, i) && Complete(s, es, i) && !BeginsAt(s, i)
    ensures Ordered(s, es, i + 1) && Complete(s, es, i + 1)
  {
  }

  /** Where an expression begins, it is the first one listed, and the others are sound, ordered and complete
      after it. */
  lemma {:induction false} HeadAndTail(s: string, es: seq<MakoExpression>, i: nat)
    requires Ordered(s, es, i) && Complete(s, es, i) && BeginsAt(s, i)
    ensures es != [] && es[0] == ExpressionAt(s, i) && i < After(es[0])
    ensures Ordered(s, es[1..], After(es[0])) && Complete(s, es[1..], After(es[0]))
  {
    HeadBegins(s, es, i);
    hide ExpressionAt, BeginsAt, Ordered, Complete;
    TailOrdered(s, es, i);
    TailComplete(s, es, i);
  }

  lemma {:induction false} HeadInside(s: string, es: seq<MakoExpression>, i: nat)
    requires Ordered(s, es, i) && es != []
    ensures i < |s|
  {
    hide ExpressionAt;
    assert BeginsAt(s, es[0].start);
  }

  /** No other list of expressions is sound, ordered and complete. */
  lemma {:induction false} ExpressionsUnique(s: string, es: seq<MakoExpression>, i: nat)
    requires Ordered(s, es, i) && Complete(s, es, i)
    ensures es == Expressions(s, i)
    decreases |s| - i
  {
    hide Complete, Ordered, ExpressionAt, BeginsAt, After;
    if es != [] {
      HeadInside(s, es, i);
    }
    if i < |s| && BeginsAt(s, i) {
      HeadAndTail(s, es, i);
      ExpressionsUnique(s, es[1..], After(es[0]));
      assert es == [es[0]] + es[1..];
    } else if i < |s| {
      NothingBeginsHere(s, es, i);
      ExpressionsUnique(s, es, i + 1);
    }
  }

  lemma {:induction false} FirstLineStart(s: string, j: nat)
    requires j <= |s| && '\n' !in s
    ensures LineStart(s, j) == 0
  {
  }

  /** An expression that holds a second start delimiter is not rejected: "${${}}" is one expression. */
  lemma {:induction false} NestedStartDelimiterExample()
    ensures At("${${}}", START_DELIM, 2) && ExpressionAt("${${}}", 0).end == Some(6)
  {
    var s, live := "${${}}", NotCommented("${${}}", COMMENT);
    forall j: nat | j <= 6 ensures live(j) {
      FirstLineStart(s, j);
      assert SkipSpace(s, 0) == 0;
    }
    assert At(s, START_DELIM, 2);
    NestedScan(live);
  }

  lemma {:induction false} NestedScan(live: nat -> bool)
    requires forall j :: 0 <= j < 6 ==> live(j)
    ensures Scan("${${}}", live, BRACES, 2, 0) == Some(Closing(5, []))
  {
    hide StringAt;
    var s := "${${}}";
    assert Scan(s, live, BRACES, 5, 0) == Some(Closing(5, []));
    assert Scan(s, live, BRACES, 4, 1) == Some(Closing(5, []));
    assert Scan(s, live, BRACES, 3, 0) == Some(Closing(5, []));
  }

  // ---------- The search loop ----------

  /** The loop's variables: where it searches next, None after the comments have used up the template,
      and what it has found. */
  datatype State = Searching(start: Option<nat>, found: seq<MakoExpression>) | Finished(found: seq<MakoExpression>)

  /** One turn of the loop. Searching from None searches from the beginning. */
  function Turn(s: string, state: State): State {
    if state.Finished? then state
    else
      match Find(s, START_DELIM, if state.start.None? then 0 else state.start.value)
      case None => Finished(state.found)
      case Some(p) =>
        if FirstLive(s, COMMENT, p) != Some(p) then Searching(FirstLive(s, COMMENT, p), state.found)
        else Searching(Some(After(ExpressionAt(s, p))), state.found + [ExpressionAt(s, p)])
  }

  function Turns(s: string, state: State, n: nat): State
    decreases n
  {
    if n == 0 then state else Turns(s, Turn(s, state), n - 1)
  }

  const INITIAL := Searching(Some(0), [])

  /** Some start delimiter has only commented lines at and after it. */
  ghost predicate DelimiterInCommentedTail(s: string) {
    exists p: nat :: At(s, START_DELIM, p) && FirstLive(s, COMMENT, p).None?
  }

  lemma {:induction false} ExpressionsSkip(s: string, i: nat, j: nat)
    requires i <= j && forall k: nat :: i <= k < j ==> !BeginsAt(s, k)
    ensures Expressions(s, i) == Expressions(s, j)
    decreases j - i
  {
    if i < j {
      ExpressionsSkip(s, i + 1, j);
    }
  }

  lemma {:induction false} NoExpressions(s: string, i: nat)
    requires forall k: nat :: i <= k ==> !BeginsAt(s, k)
    ensures Expressions(s, i) == []
    decreases |s| - i
  {
    if i < |s| {
      NoExpressions(s, i + 1);
    }
  }

  /** One turn that finds something moves the search forward and keeps what is found and what is still to find
      together, unless the template has a start delimiter in its commented tail. */
  lemma {:induction false} TurnKeepsTotal(s: string, i: nat, found: seq<MakoExpression>)
    requires !DelimiterInCommentedTail(s)
    ensures match Turn(s, Searching(Some(i), found))
      case Finished(all) => all == found + Expressions(s, i)
      case Searching(next, more) =>
        next.Some? && i < next.value && more + Expressions(s, next.value) == found + Expressions(s, i)
  {
    hide ExpressionAt, Live, At;
    var p := Find(s, START_DELIM, i);
    if p.None? {
      NoExpressions(s, i);
    } else {
      ExpressionsSkip(s, i, p.value);
      var live := FirstLive(s, COMMENT, p.value);
      if live != p {
        ExpressionsSkip(s, p.value, live.value);
      } else {
        var e := ExpressionAt(s, p.value);
        var rest := Expressions(s, After(e));
        assert found + ([e] + rest) == (found + [e]) + rest;
      }
    }
  }

  /** Without a start delimiter in the commented tail the loop finishes, with exactly the expressions. */
  lemma {:induction false} LoopFinishes(s: string, i: nat, found: seq<MakoExpression>) returns (n: nat)
    requires !DelimiterInCommentedTail(s)
    ensures Turns(s, Searching(Some(i), found), n) == Finished(found + Expressions(s, i))
    decreases |s| - i
  {
    TurnKeepsTotal(s, i, found);
    match Turn(s, Searching(Some(i), found))
    case Finished(_) => n := 1;
    case Searching(next, more) =>
      var m := LoopFinishes(s, next.value, more);
      n := m + 1;
  }

  /** With one there, at `tail`, a turn that starts at or before it ends at or before it, or at None. */
  lemma {:induction false} TurnStays(s: string, tail: nat, start: Option<nat>, found: seq<MakoExpression>)
    requires At(s, START_DELIM, tail) && FirstLive(s, COMMENT, tail).None?
    requires start.Some? ==> start.value <= tail
    ensures var next := Turn(s, Searching(start, found));
      next.Searching? && (next.start.Some? ==> next.start.value <= tail)
  {
    var p := Find(s, START_DELIM, if start.None? then 0 else start.value).value;
    assert s[p + 1] == START_DELIM[1] && s[tail + 0] == START_DELIM[0];
    hide At, Live;
    var live := FirstLive(s, COMMENT, p);
    if live == Some(p) {
      assert LiveAt(s, p) && !LiveAt(s, tail);
      var closing := ClosingOf(s, p);
      hide ClosingOf, FirstLive;
      assert closing.Some? ==> LiveAt(s, closing.value.index);
    }
  }

  lemma {:induction false} LoopStays(s: string, tail: nat, start: Option<nat>, found: seq<MakoExpression>, n: nat)
    requires At(s, START_DELIM, tail) && FirstLive(s, COMMENT, tail).None?
    requires start.Some? ==> start.value <= tail
    ensures Turns(s, Searching(start, found), n).Searching?
    decreases n
  {
    hide At, FirstLive, Turn, Find, ExpressionAt;
    if n > 0 {
      TurnStays(s, tail, start, found);
      var next := Turn(s, Searching(start, found));
      LoopStays(s, tail, next.start, next.found, n - 1);
    }
  }

  /** The loop finishes on a template if and only if no start delimiter has only commented lines at and after it. */
  lemma {:induction false} LoopFinishesIff(s: string)
    ensures (exists n :: Turns(s, INITIAL, n).Finished?) <==> !DelimiterInCommentedTail(s)
  {
    if DelimiterInCommentedTail(s) {
      var tail: nat :| At(s, START_DELIM, tail) && FirstLive(s, COMMENT, tail).None?;
      forall n: nat ensures Turns(s, INITIAL, n).Searching? {
        LoopStays(s, tail, Some(0), [], n);
      }
    } else {
      var n := LoopFinishes(s, 0, []);
      assert Turns(s, INITIAL, n).Finished?;
    }
  }

  /** In the characters of the template: "${" stands where neither that place nor any later one is on a line that
      "##" leaves uncommented. */
  lemma {:induction false} DelimiterInCommentedTailIff(s: string)
    ensures DelimiterInCommentedTail(s)
        <==> exists p: nat :: StandsAt(s, "${", p) && forall i: nat :: p <= i <= |s| ==> !Live(s, Some("##"), i)
  {
    hide Live;
    forall p: nat
      ensures At(s, START_DELIM, p) <==> StandsAt(s, "${", p)
      ensures FirstLive(s, COMMENT, p).None? && p <= |s|
          <==> p <= |s| && forall i: nat :: p <= i <= |s| ==> !Live(s, Some("##"), i)
    {
      StandsAtIff(s, START_DELIM, p);
    }
  }

  /** The template "## ${x}" is one on which no number of turns is enough. */
  lemma {:induction false} CommentedTailExample()
    ensures DelimiterInCommentedTail("## ${x}")
    ensures forall n: nat :: !Turns("## ${x}", INITIAL, n).Finished?
  {
    var s := "## ${x}";
    forall j: nat | j <= 7 ensures !LiveAt(s, j) {
      FirstLineStart(s, j);
      assert SkipSpace(s, 0) == 0;
    }
    assert At(s, START_DELIM, 3) && FirstLive(s, COMMENT, 3).None?;
    LoopFinishesIff(s);
  }

  /** A last line that is not commented out is enough. */
  lemma {:induction false} LiveLastLineFinishes(s: string)
    requires LiveAt(s, |s|)
    ensures !DelimiterInCommentedTail(s)
  {
  }

  /** _find_mako_expressions, on the templates on which it returns. */
  method FindMakoExpressions(template: string) returns (expressions: seq<MakoExpression>)
    requires !DelimiterInCommentedTail(template)
    ensures expressions == Expressions(template, 0)
  {
    hide At, Live, FirstLive, Find, Scan, Expressions;
    var start: Option<nat> := Some(0);
    expressions := [];
    while true
      invariant start.Some? && expressions + Expressions(template, start.value) == Expressions(template, 0)
      decreases |template| - start.value
    {
      TurnKeepsTotal(template, start.value, expressions);
      var found := Find(template, START_DELIM, start.value);
      if found.None? {
        break;
      }
      var uncommented := UncommentedStartIndex(COMMENT, template, found.value);
      if uncommented != found {
        start := uncommented;
        continue;
      }
      var inner := found.value + |START_DELIM|;
      var result := FindClosingCharIndex(COMMENT, Some(START_DELIM), BRACES, template, inner, 0, []);
      var expression: MakoExpression;
      if result.None? {
        expression := MakoExpression(found.value, None, None, []);
        start := Some(found.value + |START_DELIM|);
      } else {
        var end := result.value.index + 1;
        expression := MakoExpression(found.value, Some(end), Some(template[found.value..end]), result.value.strings);
        start := Some(end);
      }
      assert expression == ExpressionAt(template, found.value);
      expressions := expressions + [expression];
    }
  }
}
