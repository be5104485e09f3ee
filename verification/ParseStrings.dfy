/** String literals found in a template (scripts/safe_template_linter.py:643-744). */
module ParseStrings {
  import opened Text

  const QUOTES: set<char> := {'\'', '"'}

  /** What ParseString records: `start` is the first quote, if any; the rest is set when the literal closes. */
  datatype ParseString = ParseString(start: Option<nat>, literal: Option<Literal>)

  datatype Literal = Literal(end: nat, quoteLength: nat, text: string, inner: string)

  // ---------- Specification ----------

  /** The opening quote at i: three quotes if three equal ones stand there, else one. */
  function OpeningQuote(s: string, i: nat): (q: string)
    requires i < |s|
    ensures At(s, q, i) && (|q| == 1 || |q| == 3)
  {
    var triple := [s[i], s[i], s[i]];
    if At(s, triple, i) then triple else [s[i]]
  }

  /** Lexes a literal body character by character: a backslash takes the next character with it,
      and the first quote met at a visited position closes. The result is the index after it. */
  function LiteralEnd(s: string, q: string, i: nat): (end: Option<nat>)
    ensures end.Some? ==> i + |q| <= end.value <= |s| && At(s, q, end.value - |q|)
    decreases |s| - i
  {
    if i >= |s| then None
    else if s[i] == '\\' then LiteralEnd(s, q, i + 2)
    else if At(s, q, i) then Some(i + |q|)
    else LiteralEnd(s, q, i + 1)
  }

  /** The end of the literal that opens at i. */
  function EndOfLiteralAt(s: string, i: nat): (end: Option<nat>)
    requires i < |s|
    ensures end.Some? ==> i + 2 * |OpeningQuote(s, i)| <= end.value <= |s|
  {
    var q := OpeningQuote(s, i);
    LiteralEnd(s, q, i + |q|)
  }

  function LiteralAt(s: string, i: nat): Option<Literal>
    requires i < |s|
  {
    var q := OpeningQuote(s, i);
    match EndOfLiteralAt(s, i)
    case None => None
    case Some(end) => Some(Recorded(s, i, |q|, end))
  }

  /** What ParseString records when its first quote is at i. */
  function StringAt(s: string, i: nat): (p: ParseString)
    requires i < |s|
    ensures p.start == Some(i) && (p.literal.Some? ==> i < p.literal.value.end <= |s|)
  {
    ParseString(Some(i), LiteralAt(s, i))
  }

  function Recorded(s: string, start: nat, quoteLength: nat, end: nat): Literal
    requires start + 2 * quoteLength <= end <= |s|
  {
    var text := s[start..end];
    Literal(end, quoteLength, text, text[quoteLength..|text| - quoteLength])
  }

  /** The number of backslashes in a row that end just before p, looking back no further than `lo`. */
  function BackslashRun(s: string, lo: nat, p: nat): nat
    requires lo <= p <= |s|
  {
    if p > lo && s[p - 1] == '\\' then 1 + BackslashRun(s, lo, p - 1) else 0
  }

  /** p holds a quote which no backslash of the body escapes. */
  predicate ClosesAt(s: string, q: string, lo: nat, p: nat)
    requires lo <= p
  {
    At(s, q, p) && BackslashRun(s, lo, p) % 2 == 0
  }

  // ---------- Properties ----------

  /** Positions that hold neither a backslash nor the quote are passed over. */
  lemma {:induction false} LexSkips(s: string, q: string, i: nat, j: nat)
    requires i <= j && forall k: nat :: i <= k < j ==> !At(s, q, k)
    requires forall k: nat :: i <= k < j && k < |s| ==> s[k] != '\\'
    ensures LiteralEnd(s, q, i) == LiteralEnd(s, q, j)
    decreases j - i
  {
    if i < j {
      LexSkips(s, q, i + 1, j);
    }
  }

  lemma {:induction false} LexWithoutQuote(s: string, q: string, i: nat)
    requires forall k: nat :: i <= k ==> !At(s, q, k)
    ensures LiteralEnd(s, q, i) == None
    decreases |s| - i
  {
  }

  lemma {:induction false} LexClosesUnescaped(s: string, q: string, lo: nat, i: nat)
    requires q != "" && lo <= i && (i <= |s| ==> BackslashRun(s, lo, i) % 2 == 0)
    requires LiteralEnd(s, q, i).Some?
    ensures i <= LiteralEnd(s, q, i).value - |q| && ClosesAt(s, q, lo, LiteralEnd(s, q, i).value - |q|)
    decreases |s| - i
  {
    if s[i] == '\\' {
      assert i + 2 <= |s| ==> BackslashRun(s, lo, i + 1) == 1 + BackslashRun(s, lo, i);
      LexClosesUnescaped(s, q, lo, i + 2);
    } else if !At(s, q, i) {
      LexClosesUnescaped(s, q, lo, i + 1);
    }
  }

  lemma {:induction false} LexStopsByUnescaped(s: string, q: string, lo: nat, i: nat, p: nat)
    requires q != "" && q[0] != '\\' && lo <= i <= p && ClosesAt(s, q, lo, p)
    requires BackslashRun(s, lo, i) % 2 == 0
    ensures LiteralEnd(s, q, i).Some? && LiteralEnd(s, q, i).value - |q| <= p
    decreases |s| - i
  {
    assert s[p] == s[p..p + |q|][0] == q[0];
    if s[i] == '\\' {
      assert BackslashRun(s, lo, i + 1) == 1 + BackslashRun(s, lo, i);
      assert i + 1 != p;
      LexStopsByUnescaped(s, q, lo, i + 2, p);
    } else if !At(s, q, i) {
      LexStopsByUnescaped(s, q, lo, i + 1, p);
    }
  }

  /** One round of find-and-skip does what the lexer does. */
  lemma {:induction false} FindAndSkip(s: string, q: string, next: nat)
    requires q != "" && q[0] != '\\'
    ensures var quoteEnd, backslash := Find(s, q, next), Find(s, "\\", next);
      LiteralEnd(s, q, next) ==
        if quoteEnd.None? then None
        else if backslash.Some? && backslash.value < quoteEnd.value then LiteralEnd(s, q, backslash.value + 2)
        else Some(quoteEnd.value + |q|)
  {
    var quoteEnd, backslash := Find(s, q, next), Find(s, "\\", next);
    forall k: nat | next <= k < |s| && (backslash.None? || k < backslash.value)
      ensures s[k] != '\\'
    {
      assert !At(s, "\\", k);
    }
    if quoteEnd.None? {
      LexWithoutQuote(s, q, next);
    } else if backslash.Some? && backslash.value < quoteEnd.value {
      assert s[backslash.value + 0] == "\\"[0];
      LexSkips(s, q, next, backslash.value);
    } else {
      assert s[quoteEnd.value + 0] == q[0];
      LexSkips(s, q, next, quoteEnd.value);
    }
  }

  /** The lexer ends a literal exactly at its first quote that is preceded by an even number of backslashes
      of the body, and not at all when the body has no such quote. */
  lemma {:induction false} LiteralEndsAtFirstUnescapedQuote(s: string, i: nat)
    requires i < |s| && s[i] in QUOTES
    ensures var q, end := OpeningQuote(s, i), EndOfLiteralAt(s, i);
      var lo := i + |q|;
      && (end.Some? ==> lo <= end.value - |q| && ClosesAt(s, q, lo, end.value - |q|))
      && forall p: nat :: lo <= p && (end.Some? ==> p < end.value - |q|) ==> !ClosesAt(s, q, lo, p)
  {
    var q, end := OpeningQuote(s, i), EndOfLiteralAt(s, i);
    var lo := i + |q|;
    assert q[0] == s[i];
    if end.Some? {
      LexClosesUnescaped(s, q, lo, lo);
    }
    forall p: nat | lo <= p && ClosesAt(s, q, lo, p)
      ensures end.Some? && end.value - |q| <= p
    {
      LexStopsByUnescaped(s, q, lo, lo, p);
    }
  }

  /** The recorded text is the stretch of the template from the start to the end of the literal,
      and it is the opening quote, the recorded inner text and the same quote again. */
  lemma {:induction false} LiteralTextRebuilds(s: string, i: nat)
    requires i < |s| && LiteralAt(s, i).Some?
    ensures var q, l := OpeningQuote(s, i), LiteralAt(s, i).value;
      |q| == l.quoteLength && l.text == s[i..l.end] && l.text == q + l.inner + q
  {
    var q, end := OpeningQuote(s, i), EndOfLiteralAt(s, i).value;
    QuoteBothEnds(s, q, i, end);
  }

  lemma {:induction false} QuoteBothEnds(s: string, q: string, i: nat, end: nat)
    requires i + 2 * |q| <= end <= |s| && At(s, q, i) && At(s, q, end - |q|)
    ensures var l := Recorded(s, i, |q|, end); l.text == s[i..end] && l.text == q + l.inner + q
  {
    assert s[i..i + |q|] == q && s[end - |q|..end] == q;
    assert s[i..end] == s[i..i + |q|] + s[i + |q|..end - |q|] + s[end - |q|..end];
    assert s[i..end][|q|..end - i - |q|] == s[i + |q|..end - |q|];
  }

  /** Three equal characters open with three, and anything else with one. */
  lemma {:induction false} OpeningQuoteIs(s: string, i: nat)
    requires i < |s|
    ensures OpeningQuote(s, i)
         == if i + 2 < |s| && s[i + 1] == s[i] && s[i + 2] == s[i] then [s[i], s[i], s[i]] else [s[i]]
  {
    if At(s, [s[i], s[i], s[i]], i) {
      assert s[i + 1] == [s[i], s[i], s[i]][1] && s[i + 2] == [s[i], s[i], s[i]][2];
    }
  }

  /** The run is all of the backslashes in a row before p, none of them before `lo`. */
  lemma {:induction false} BackslashRunIs(s: string, lo: nat, p: nat)
    requires lo <= p <= |s|
    ensures var n := BackslashRun(s, lo, p);
      && lo <= p - n && (forall k :: p - n <= k < p ==> s[k] == '\\')
      && (lo < p - n ==> s[p - n - 1] != '\\')
  {
    if p > lo && s[p - 1] == '\\' {
      BackslashRunIs(s, lo, p - 1);
    }
  }

  /** The literal begins at the first single or double quote of the range, if there is one. */
  lemma {:induction false} ParsedFromFirstQuote(s: string, start: nat, limit: nat)
    requires start <= limit <= |s|
    ensures match Parsed(s, start, limit).start
      case None => forall k :: start <= k < limit ==> s[k] !in {'\'', '"'}
      case Some(i) =>
        && start <= i < limit && s[i] in {'\'', '"'} && (forall k :: start <= k < i ==> s[k] !in {'\'', '"'})
        && Parsed(s, start, limit).literal == LiteralAt(s, i)
    ensures Parsed(s, start, limit).literal.Some? ==> Parsed(s, start, limit).start.Some?
  {
    hide LiteralAt;
  }

  /** There is a literal if and only if one ends, and its end is recorded. */
  lemma {:induction false} LiteralEndRecorded(s: string, i: nat)
    requires i < |s|
    ensures LiteralAt(s, i).Some? <==> EndOfLiteralAt(s, i).Some?
    ensures LiteralAt(s, i).Some? ==> Some(LiteralAt(s, i).value.end) == EndOfLiteralAt(s, i)
  {
    hide LiteralEnd;
    var q := OpeningQuote(s, i);
  }

  // ---------- The parser ----------

  /** _parse_string: jumps from one find result to the next. */
  method ParseLiteral(template: string, start: nat) returns (result: Option<Literal>)
    requires start < |template| && template[start] in QUOTES
    ensures result == LiteralAt(template, start)
  {
    var quote := [template[start]];
    var tripleQuote := [template[start], template[start], template[start]];
    if At(template, tripleQuote, start) {
      quote := tripleQuote;
    }
    var end := FindLiteralEnd(template, quote, start + |quote|);
    result := if end.None? then None else Some(Recorded(template, start, |quote|, end.value));
  }

  /** The search loop of _parse_string. */
  method FindLiteralEnd(template: string, quote: string, bodyStart: nat) returns (end: Option<nat>)
    requires quote != "" && quote[0] != '\\'
    ensures end == LiteralEnd(template, quote, bodyStart)
  {
    hide At, Find;
    var next := bodyStart;
    while true
      invariant LiteralEnd(template, quote, next) == LiteralEnd(template, quote, bodyStart)
      decreases |template| - next
    {
      var quoteEnd := Find(template, quote, next);
      var backslash := Find(template, "\\", next);
      FindAndSkip(template, quote, next);
      if quoteEnd.None? {
        return None;
      }
      if backslash.Some? && backslash.value < quoteEnd.value {
        next := backslash.value + 2;
      } else {
        return Some(quoteEnd.value + |quote|);
      }
    }
  }

  /** The constructor: the first quote in [start, limit), and the literal that opens there. */
  function Parsed(template: string, start: nat, limit: nat): ParseString
    requires start <= limit <= |template|
  {
    match FindChar(template, QUOTES, start, limit)
    case None => ParseString(None, None)
    case Some(i) => StringAt(template, i)
  }

  method Parse(template: string, start: nat, limit: nat) returns (p: ParseString)
    requires start <= limit <= |template|
    ensures p == Parsed(template, start, limit)
  {
    var first := FindChar(template, QUOTES, start, limit);
    if first.None? {
      p := ParseString(None, None);
    } else {
      var literal := ParseLiteral(template, first.value);
      p := ParseString(first, literal);
    }
  }
}
