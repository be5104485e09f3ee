/** Bracket matching that skips strings and commented lines (scripts/safe_template_linter.py:808-922). */
module ClosingChar {
  import opened Text
  import opened StringLines
  import opened ParseStrings

  /** A line comment delimiter such as "##" or "//". */
  type Delimiter = d: string | d != "" && d[0] !in WHITESPACE witness "##"

  /** The closing character found, and the literals passed on the way to it. */
  datatype Closing = Closing(index: nat, strings: seq<ParseString>)

  // ---------- Comments ----------

  /** The first index from i on that is not white space; line breaks count as white space. */
  function SkipSpace(s: string, i: nat): nat
    decreases |s| - i
  {
    if i < |s| && s[i] in WHITESPACE then SkipSpace(s, i + 1) else i
  }

  /** The line that begins at k is commented out. */
  predicate Commented(s: string, delim: Option<Delimiter>, k: nat) {
    delim.Some? && At(s, delim.value, SkipSpace(s, k))
  }

  /** Index i is on a line that is not commented out. */
  predicate Live(s: string, delim: Option<Delimiter>, i: nat) {
    !Commented(s, delim, LineStart(s, i))
  }

  /** The first live index from i on. */
  function FirstLive(s: string, delim: Option<Delimiter>, i: nat): (r: Option<nat>)
    ensures r.Some? ==> i <= r.value && Live(s, delim, r.value)
    ensures r.Some? ==> forall j: nat :: i <= j < r.value ==> !Live(s, delim, j)
    ensures r.None? ==> forall j: nat :: i <= j <= |s| ==> !Live(s, delim, j)
    ensures r.Some? && i <= |s| ==> r.value <= |s|
    decreases |s| - i
  {
    if Live(s, delim, i) then Some(i)
    else if i >= |s| then None
    else FirstLive(s, delim, i + 1)
  }

  /** The search for the regular expression that matches at the start of an uncommented line. */
  function FirstUncommentedLine(s: string, delim: Option<Delimiter>, from: nat): (r: Option<nat>)
    requires from <= |s|
    ensures r.Some? ==> from <= r.value <= |s|
    decreases |s| - from
  {
    if IsLineStart(s, from) && !Commented(s, delim, from) then Some(from)
    else if from == |s| then None
    else FirstUncommentedLine(s, delim, from + 1)
  }

  lemma {:induction false} NextUncommentedLineIsFirstLive(s: string, delim: Option<Delimiter>, from: nat)
    requires from <= |s| && (IsLineStart(s, from) || !Live(s, delim, from))
    ensures FirstUncommentedLine(s, delim, from) == FirstLive(s, delim, from)
    decreases |s| - from
  {
    if !Live(s, delim, from) && from < |s| {
      NextUncommentedLineIsFirstLive(s, delim, from + 1);
    }
  }

  lemma {:induction false} LiveLine(s: string, delim: Option<Delimiter>, i: nat, j: nat)
    requires LineStart(s, j) <= i <= j
    ensures LineStart(s, i) == LineStart(s, j) && Live(s, delim, i) == Live(s, delim, j)
  {
  }

  /** _uncommented_start_index gives the first index, from the given one on, that is not on a commented line. */
  method UncommentedStartIndex(delim: Option<Delimiter>, template: string, start: nat) returns (r: Option<nat>)
    requires start <= |template|
    ensures r == FirstLive(template, delim, start)
  {
    if delim.None? {
      return Some(start);
    }
    var lines := new StringLines(template);
    var lineStart := lines.IndexToLineStartIndex(start);
    var found := FirstUncommentedLine(template, delim, lineStart);
    LiveLine(template, delim, lineStart, start);
    NextUncommentedLineIsFirstLive(template, delim, lineStart);
    if found.None? {
      FirstLiveAgrees(template, delim, lineStart, start);
      r := None;
    } else if found.value < start {
      LiveLine(template, delim, found.value, start);
      r := Some(start);
    } else {
      FirstLiveAgrees(template, delim, lineStart, start);
      r := found;
    }
  }

  lemma {:induction false} FirstLiveAgrees(s: string, delim: Option<Delimiter>, i: nat, j: nat)
    requires i <= j <= |s| && forall k: nat :: i <= k < j ==> !Live(s, delim, k)
    ensures FirstLive(s, delim, i) == FirstLive(s, delim, j)
    decreases j - i
  {
  }

  /** Nothing but spaces, tabs, line breaks, returns, and vertical and form feeds stands between i and j. */
  predicate Blank(s: string, i: nat, j: nat) {
    forall k :: i <= k < j ==> k < |s| && s[k] in {' ', '\t', '\n', '\r', '\U{00000b}', '\U{00000c}'}
  }

  lemma {:induction false} SkipSpaceEnds(s: string, i: nat)
    ensures var end := SkipSpace(s, i);
      i <= end && Blank(s, i, end) && (end < |s| ==> s[end] !in WHITESPACE)
    decreases |s| - i
  {
    if i < |s| && s[i] in WHITESPACE {
      SkipSpaceEnds(s, i + 1);
    }
  }

  /** A line is commented out if and only if the delimiter stands at its start or after blank space alone, even on a
      later line. */
  lemma {:induction false} CommentedIff(s: string, delim: Option<Delimiter>, k: nat)
    ensures Commented(s, delim, k)
        <==> delim.Some? && exists j: nat :: k <= j && StandsAt(s, delim.value, j) && Blank(s, k, j)
  {
    SkipSpaceEnds(s, k);
    var end := SkipSpace(s, k);
    if delim.Some? {
      StandsAtIff(s, delim.value, end);
      forall j: nat | k <= j && StandsAt(s, delim.value, j)
        ensures s[j] == delim.value[0]
      {
        assert s[j] == s[j..j + |delim.value|][0];
      }
    }
  }

  /** An index is on a commented line if and only if a line begins at or before it, no line break lies between, and
      the delimiter follows that beginning after blank space alone. */
  lemma {:induction false} LiveIff(s: string, delim: Option<Delimiter>, i: nat)
    ensures !Live(s, delim, i)
        <==> delim.Some? && exists k: nat, j: nat ::
               LineHolds(s, k, i) && k <= j && StandsAt(s, delim.value, j) && Blank(s, k, j)
  {
    var start := LineStart(s, i);
    CommentedIff(s, delim, start);
    forall k: nat
      ensures LineHolds(s, k, i) <==> k == start
    {
      assert LineHolds(s, k, i) ==> IsLineStart(s, k);
      assert forall m :: start <= m < i && m < |s| && s[m] == '\n' ==> IsLineStart(s, m + 1);
    }
  }

  /** The line that begins at k holds index i; the last line holds all that lies behind the text. */
  predicate LineHolds(s: string, k: nat, i: nat) {
    k <= i && (k == 0 || (k <= |s| && s[k - 1] == '\n')) && forall m :: k <= m < i && m < |s| ==> s[m] != '\n'
  }

  // ---------- The one-pass lexer ----------

  /** The indexes that the comment delimiter leaves live. */
  function NotCommented(s: string, delim: Option<Delimiter>): nat -> bool {
    (i: nat) => Live(s, delim, i)
  }

  /** A pair of characters to match, such as '{' and '}'. */
  datatype Pair = Pair(open: char, close: char)

  /** What the lexer does at one index. */
  datatype Move = Fail | Found | Go(next: nat, depth: nat, strings: seq<ParseString>)

  /** With `depth` pairs open: a character of a commented line is passed over, a string literal is passed over
      whole unless it does not close, an opening character opens a pair, and a closing one closes a pair or,
      at depth zero, is the one looked for. */
  function Lex(s: string, live: nat -> bool, pair: Pair, i: nat, depth: nat): (m: Move)
    requires i < |s|
    ensures m.Go? ==> i < m.next <= |s|
    ensures m.Found? ==> s[i] == pair.close && live(i)
  {
    if !live(i) then Go(i + 1, depth, [])
    else if s[i] == pair.close then if depth == 0 then Found else Go(i + 1, depth - 1, [])
    else if s[i] in QUOTES then
      var p := StringAt(s, i);
      if p.literal.None? then Fail else Go(p.literal.value.end, depth, [p])
    else Go(i + 1, if s[i] == pair.open then depth + 1 else depth, [])
  }

  /** Reads the template once, character by character; there is no result when the text ends first. */
  function Scan(s: string, live: nat -> bool, pair: Pair, i: nat, depth: nat): (r: Option<Closing>)
    ensures r.Some? ==> i <= r.value.index < |s| && s[r.value.index] == pair.close && live(r.value.index)
    decreases |s| - i
  {
    if i >= |s| then None
    else
      match Lex(s, live, pair, i, depth)
      case Fail => None
      case Found => Some(Closing(i, []))
      case Go(next, d, strings) => WithStrings(strings, Scan(s, live, pair, next, d))
  }

  function WithStrings(strings: seq<ParseString>, r: Option<Closing>): (w: Option<Closing>)
    ensures strings == [] ==> w == r
  {
    if r.None? then None
    else
      assert strings == [] ==> strings + r.value.strings == r.value.strings;
      Some(Closing(r.value.index, strings + r.value.strings))
  }

  // ---------- The lexer against counting brackets ----------

  datatype Bracket = Bracket(index: nat, opens: bool)

  /** All the brackets of the pair from i on that stand on live lines outside literals, up to the first
      literal that does not close. */
  function Brackets(s: string, live: nat -> bool, pair: Pair, i: nat): seq<Bracket>
    decreases |s| - i
  {
    if i >= |s| then []
    else if !live(i) then Brackets(s, live, pair, i + 1)
    else if s[i] == pair.close then [Bracket(i, false)] + Brackets(s, live, pair, i + 1)
    else if s[i] in QUOTES then
      var p := StringAt(s, i);
      if p.literal.None? then [] else Brackets(s, live, pair, p.literal.value.end)
    else if s[i] == pair.open then [Bracket(i, true)] + Brackets(s, live, pair, i + 1)
    else Brackets(s, live, pair, i + 1)
  }

  /** Opening minus closing brackets. */
  function Balance(brackets: seq<Bracket>): int {
    if brackets == [] then 0 else (if brackets[0].opens then 1 else -1) + Balance(brackets[1..])
  }

  /** After the first k brackets, no more have closed than were open. */
  predicate NeverBelow(brackets: seq<Bracket>, k: nat, depth: nat)
    requires k <= |brackets|
  {
    forall j :: 0 <= j <= k ==> 0 <= depth + Balance(brackets[..j])
  }

  /** Bracket k is the first that closes more than was open. */
  predicate ClosesFirst(brackets: seq<Bracket>, k: nat, depth: nat) {
    k < |brackets| && NeverBelow(brackets, k, depth) && depth + Balance(brackets[..k + 1]) == -1
  }

  lemma {:induction false} BalanceOfPrefix(b: Bracket, rest: seq<Bracket>, j: nat)
    requires 1 <= j <= |rest| + 1
    ensures Balance(([b] + rest)[..j]) == (if b.opens then 1 else -1) + Balance(rest[..j - 1])
  {
    assert ([b] + rest)[..j][1..] == rest[..j - 1];
  }

  /** One bracket in front moves the counting by one position and one level. */
  lemma {:induction false} NeverBelowStep(b: Bracket, rest: seq<Bracket>, k: nat, depth: nat)
    requires k <= |rest| && (b.opens || depth > 0)
    ensures NeverBelow([b] + rest, k + 1, depth) == NeverBelow(rest, k, if b.opens then depth + 1 else depth - 1)
  {
    var next := if b.opens then depth + 1 else depth - 1;
    if NeverBelow(rest, k, next) {
      forall j | 0 <= j <= k + 1 ensures 0 <= depth + Balance(([b] + rest)[..j]) {
        if j > 0 { BalanceOfPrefix(b, rest, j); }
      }
    }
    if NeverBelow([b] + rest, k + 1, depth) {
      forall j | 0 <= j <= k ensures 0 <= next + Balance(rest[..j]) {
        BalanceOfPrefix(b, rest, j + 1);
      }
    }
  }

  /** `index` is that of the first bracket that closes more than was open, if there is one. */
  ghost predicate FirstUnmatched(brackets: seq<Bracket>, depth: nat, index: Option<nat>) {
    match index
    case None => NeverBelow(brackets, |brackets|, depth)
    case Some(i) => exists k: nat :: ClosesFirst(brackets, k, depth) && brackets[k].index == i
  }

  lemma {:induction false} FirstUnmatchedStep(b: Bracket, rest: seq<Bracket>, depth: nat, index: Option<nat>)
    requires b.opens || depth > 0
    requires FirstUnmatched(rest, if b.opens then depth + 1 else depth - 1, index)
    ensures FirstUnmatched([b] + rest, depth, index)
  {
    var next := if b.opens then depth + 1 else depth - 1;
    if index.None? {
      NeverBelowStep(b, rest, |rest|, depth);
    } else {
      var k: nat :| ClosesFirst(rest, k, next) && rest[k].index == index.value;
      NeverBelowStep(b, rest, k, depth);
      BalanceOfPrefix(b, rest, k + 2);
      assert ClosesFirst([b] + rest, k + 1, depth);
    }
  }

  lemma {:induction false} NothingUnmatched(depth: nat)
    ensures FirstUnmatched([], depth, None)
  {
  }

  lemma {:induction false} UnmatchedAtOnce(b: Bracket, rest: seq<Bracket>)
    requires !b.opens
    ensures FirstUnmatched([b] + rest, 0, Some(b.index))
  {
    BalanceOfPrefix(b, rest, 1);
    assert ClosesFirst([b] + rest, 0, 0);
  }

  /** The lexer's result is the first bracket that closes more than was open, among the live brackets outside
      literals; it has no result exactly when no bracket does so. */
  lemma {:induction false} ScanFindsFirstUnmatched(s: string, live: nat -> bool, pair: Pair, i: nat, depth: nat)
    ensures var r := Scan(s, live, pair, i, depth);
      FirstUnmatched(Brackets(s, live, pair, i), depth, if r.None? then None else Some(r.value.index))
    decreases |s| - i
  {
    hide StringAt, FirstUnmatched;
    NothingUnmatched(depth);
    if i >= |s| {
    } else if !live(i) {
      ScanFindsFirstUnmatched(s, live, pair, i + 1, depth);
    } else if s[i] == pair.close {
      var rest := Brackets(s, live, pair, i + 1);
      if depth == 0 {
        UnmatchedAtOnce(Bracket(i, false), rest);
      } else {
        ScanFindsFirstUnmatched(s, live, pair, i + 1, depth - 1);
        var r := Scan(s, live, pair, i + 1, depth - 1);
        FirstUnmatchedStep(Bracket(i, false), rest, depth, if r.None? then None else Some(r.value.index));
      }
    } else if s[i] in QUOTES {
      var p := StringAt(s, i);
      if p.literal.Some? {
        ScanFindsFirstUnmatched(s, live, pair, p.literal.value.end, depth);
      }
    } else if s[i] == pair.open {
      ScanFindsFirstUnmatched(s, live, pair, i + 1, depth + 1);
      var rest, r := Brackets(s, live, pair, i + 1), Scan(s, live, pair, i + 1, depth + 1);
      FirstUnmatchedStep(Bracket(i, true), rest, depth, if r.None? then None else Some(r.value.index));
    } else {
      ScanFindsFirstUnmatched(s, live, pair, i + 1, depth);
    }
  }

  // ---------- The literals passed on the way ----------

  /** A quote on a live line, other than the closing character. */
  predicate QuoteAt(s: string, live: nat -> bool, pair: Pair, i: nat) {
    i < |s| && live(i) && s[i] in {'\'', '"'} && s[i] != pair.close
  }

  /** p is a literal that opens at such a quote from `from` on, and closes before or at `limit`. */
  predicate LiteralWithin(s: string, live: nat -> bool, pair: Pair, from: nat, limit: nat, p: ParseString) {
    && p.start.Some? && p.literal.Some?
    && from <= p.start.value < p.literal.value.end <= limit
    && QuoteAt(s, live, pair, p.start.value) && p == StringAt(s, p.start.value)
  }

  /** Index i belongs to one of the literals. */
  predicate InLiteral(literals: seq<ParseString>, i: nat) {
    exists k :: 0 <= k < |literals| && Holds(literals[k], i)
  }

  predicate Holds(p: ParseString, i: nat) {
    p.start.Some? && p.literal.Some? && p.start.value <= i < p.literal.value.end
  }

  predicate EndsBefore(p: ParseString, q: ParseString) {
    p.literal.Some? && q.start.Some? && p.literal.value.end <= q.start.value
  }

  /** The literals from `from` up to `limit`, in order: each opens at a live quote outside the others, and every live
      quote opens one or belongs to one. */
  ghost predicate LiteralsBetween(s: string, live: nat -> bool, pair: Pair, from: nat, limit: nat,
                                  literals: seq<ParseString>) {
    && (forall k :: 0 <= k < |literals| ==> LiteralWithin(s, live, pair, from, limit, literals[k]))
    && (forall j, k :: 0 <= j < k < |literals| ==> EndsBefore(literals[j], literals[k]))
    && (forall i: nat :: from <= i < limit && QuoteAt(s, live, pair, i) ==> InLiteral(literals, i))
  }

  lemma NoLiterals(s: string, live: nat -> bool, pair: Pair, from: nat, limit: nat)
    requires limit <= from
    ensures LiteralsBetween(s, live, pair, from, limit, [])
  {
  }

  /** A character that opens no literal changes nothing. */
  lemma LiteralsAfterChar(s: string, live: nat -> bool, pair: Pair, from: nat, limit: nat, literals: seq<ParseString>)
    requires !QuoteAt(s, live, pair, from) && LiteralsBetween(s, live, pair, from + 1, limit, literals)
    ensures LiteralsBetween(s, live, pair, from, limit, literals)
  {
    hide StringAt, InLiteral;
  }

  lemma LiteralsAfterLiteral(s: string, live: nat -> bool, pair: Pair, from: nat, limit: nat, p: ParseString,
                             literals: seq<ParseString>)
    requires LiteralWithin(s, live, pair, from, limit, p) && p.start == Some(from)
    requires LiteralsBetween(s, live, pair, p.literal.value.end, limit, literals)
    ensures LiteralsBetween(s, live, pair, from, limit, [p] + literals)
  {
    var all, end := [p] + literals, p.literal.value.end;
    forall k | 0 <= k < |all|
      ensures LiteralWithin(s, live, pair, from, limit, all[k])
      ensures k > 0 ==> EndsBefore(p, all[k])
    {
      if k > 0 {
        LiteralWithinEarlier(s, live, pair, end, from, limit, literals[k - 1]);
        assert end <= all[k].start.value;
      }
    }
    hide StringAt, LiteralWithin, InLiteral;
    forall i: nat | from <= i < limit && QuoteAt(s, live, pair, i)
      ensures InLiteral(all, i)
    {
      InLiteralAfter(p, literals, i);
      assert Holds(p, i) || InLiteral(literals, i);
    }
    forall j, k | 0 <= j < k < |all|
      ensures EndsBefore(all[j], all[k])
    {
      assert j > 0 ==> EndsBefore(literals[j - 1], literals[k - 1]);
    }
  }

  lemma LiteralWithinEarlier(s: string, live: nat -> bool, pair: Pair, from: nat, earlier: nat, limit: nat,
                             p: ParseString)
    requires earlier <= from && LiteralWithin(s, live, pair, from, limit, p)
    ensures LiteralWithin(s, live, pair, earlier, limit, p)
  {
  }

  /** The strings that come with a closing character are the literals that lie before it. */
  lemma {:induction false} ScanCollectsLiterals(s: string, live: nat -> bool, pair: Pair, i: nat, depth: nat)
    ensures var r := Scan(s, live, pair, i, depth);
      r.Some? ==> LiteralsBetween(s, live, pair, i, r.value.index, r.value.strings)
    decreases |s| - i
  {
    hide StringAt, LiteralsBetween;
    var r := Scan(s, live, pair, i, depth);
    if r.Some? {
      if !live(i) {
        ScanCollectsLiterals(s, live, pair, i + 1, depth);
        LiteralsAfterChar(s, live, pair, i, r.value.index, r.value.strings);
      } else if s[i] == pair.close {
        if depth == 0 {
          NoLiterals(s, live, pair, i, i);
        } else {
          ScanCollectsLiterals(s, live, pair, i + 1, depth - 1);
          LiteralsAfterChar(s, live, pair, i, r.value.index, r.value.strings);
        }
      } else if s[i] in QUOTES {
        var p := StringAt(s, i);
        var rest := Scan(s, live, pair, p.literal.value.end, depth);
        assert r == WithStrings([p], rest);
        ScanCollectsLiterals(s, live, pair, p.literal.value.end, depth);
        LiteralsAfterLiteral(s, live, pair, i, r.value.index, p, rest.value.strings);
      } else {
        ScanCollectsLiterals(s, live, pair, i + 1, if s[i] == pair.open then depth + 1 else depth);
        LiteralsAfterChar(s, live, pair, i, r.value.index, r.value.strings);
      }
    }
  }

  /** The bracket that stands at an index outside the literals. */
  predicate BracketAt(s: string, live: nat -> bool, pair: Pair, literals: seq<ParseString>, b: Bracket) {
    && b.index < |s| && live(b.index) && !InLiteral(literals, b.index)
    && if b.opens then s[b.index] == pair.open && s[b.index] != pair.close else s[b.index] == pair.close
  }

  /** Reading stops at the end of the text, or at a quote that opens no literal. */
  predicate ReadingStops(s: string, live: nat -> bool, pair: Pair, stop: nat) {
    stop >= |s| || (QuoteAt(s, live, pair, stop) && StringAt(s, stop).literal.None?)
  }

  /** The brackets are those outside the literals up to where reading stops, each once and in order. */
  ghost predicate BracketsBetween(s: string, live: nat -> bool, pair: Pair, from: nat, stop: nat,
                                  literals: seq<ParseString>, brackets: seq<Bracket>) {
    && ReadingStops(s, live, pair, stop) && LiteralsBetween(s, live, pair, from, stop, literals)
    && (forall b: Bracket ::
          b in brackets <==> from <= b.index < stop && BracketAt(s, live, pair, literals, b))
    && (forall j, k :: 0 <= j < k < |brackets| ==> brackets[j].index < brackets[k].index)
  }

  lemma NoBrackets(s: string, live: nat -> bool, pair: Pair, from: nat)
    requires ReadingStops(s, live, pair, from)
    ensures BracketsBetween(s, live, pair, from, from, [], [])
  {
    hide StringAt;
  }

  /** A character that opens no literal is a bracket or changes nothing. */
  lemma BracketsAfterChar(s: string, live: nat -> bool, pair: Pair, from: nat, stop: nat, literals: seq<ParseString>,
                          rest: seq<Bracket>)
    requires from < |s| && !QuoteAt(s, live, pair, from)
    requires BracketsBetween(s, live, pair, from + 1, stop, literals, rest) && from + 1 <= stop
    ensures BracketsBetween(s, live, pair, from, stop, literals,
      if !live(from) then rest
      else if s[from] == pair.close then [Bracket(from, false)] + rest
      else if s[from] == pair.open then [Bracket(from, true)] + rest else rest)
  {
    hide StringAt, ReadingStops;
    LiteralsAfterChar(s, live, pair, from, stop, literals);
    assert !InLiteral(literals, from);
    hide InLiteral, LiteralsBetween;
    if live(from) && (s[from] == pair.close || s[from] == pair.open) {
      var first := Bracket(from, s[from] != pair.close);
      BracketsAfterBracket(s, live, pair, from, stop, literals, first, rest);
    } else {
      forall b: Bracket
        ensures b in rest <==> from <= b.index < stop && BracketAt(s, live, pair, literals, b)
      {
        assert b.index == from ==> !BracketAt(s, live, pair, literals, b);
      }
    }
  }

  lemma BracketsAfterBracket(s: string, live: nat -> bool, pair: Pair, from: nat, stop: nat, literals: seq<ParseString>,
                             first: Bracket, rest: seq<Bracket>)
    requires first.index == from < stop && BracketAt(s, live, pair, literals, first)
    requires BracketsBetween(s, live, pair, from + 1, stop, literals, rest)
    requires LiteralsBetween(s, live, pair, from, stop, literals)
    ensures BracketsBetween(s, live, pair, from, stop, literals, [first] + rest)
  {
    hide ReadingStops, LiteralsBetween, InLiteral;
    var all := [first] + rest;
    forall b: Bracket
      ensures b in all <==> from <= b.index < stop && BracketAt(s, live, pair, literals, b)
    {
      assert b in all <==> b == first || b in rest;
    }
    forall j, k | 0 <= j < k < |all|
      ensures all[j].index < all[k].index
    {
      assert all[k] == rest[k - 1] && rest[k - 1] in rest;
    }
  }

  lemma BracketsAfterLiteral(s: string, live: nat -> bool, pair: Pair, from: nat, stop: nat, p: ParseString,
                             literals: seq<ParseString>, rest: seq<Bracket>)
    requires QuoteAt(s, live, pair, from) && p == StringAt(s, from) && p.literal.Some?
    requires BracketsBetween(s, live, pair, p.literal.value.end, stop, literals, rest) && p.literal.value.end <= stop
    ensures BracketsBetween(s, live, pair, from, stop, [p] + literals, rest)
  {
    hide StringAt, ReadingStops;
    LiteralsAfterLiteral(s, live, pair, from, stop, p, literals);
    var all := [p] + literals;
    forall b: Bracket
      ensures b in rest <==> from <= b.index < stop && BracketAt(s, live, pair, all, b)
    {
      InLiteralAfter(p, literals, b.index);
      hide InLiteral, LiteralsBetween;
    }
  }

  lemma InLiteralAfter(p: ParseString, literals: seq<ParseString>, i: nat)
    ensures InLiteral([p] + literals, i) <==> Holds(p, i) || InLiteral(literals, i)
  {
    var all := [p] + literals;
    if Holds(p, i) {
      assert Holds(all[0], i);
    } else if k :| 0 <= k < |literals| && Holds(literals[k], i) {
      assert Holds(all[k + 1], i);
    }
  }

  /** What the bracket list holds. */
  lemma {:induction false} BracketsAre(s: string, live: nat -> bool, pair: Pair, i: nat)
    returns (stop: nat, literals: seq<ParseString>)
    ensures i <= stop && BracketsBetween(s, live, pair, i, stop, literals, Brackets(s, live, pair, i))
    decreases |s| - i
  {
    hide StringAt, BracketsBetween;
    if i >= |s| {
      stop, literals := i, [];
      NoBrackets(s, live, pair, i);
    } else if live(i) && s[i] != pair.close && s[i] in QUOTES {
      var p := StringAt(s, i);
      if p.literal.None? {
        stop, literals := i, [];
        NoBrackets(s, live, pair, i);
      } else {
        stop, literals := BracketsAre(s, live, pair, p.literal.value.end);
        var rest := Brackets(s, live, pair, p.literal.value.end);
        BracketsAfterLiteral(s, live, pair, i, stop, p, literals, rest);
        literals := [p] + literals;
      }
    } else {
      stop, literals := BracketsAre(s, live, pair, i + 1);
      BracketsAfterChar(s, live, pair, i, stop, literals, Brackets(s, live, pair, i + 1));
    }
  }

  /** The brackets counted are, in order, the opening and closing characters on live lines outside the literals, up
      to the first quote that opens no literal. */
  lemma {:induction false} BracketsOutsideLiterals(s: string, live: nat -> bool, pair: Pair, i: nat)
    ensures exists stop: nat, literals :: BracketsBetween(s, live, pair, i, stop, literals, Brackets(s, live, pair, i))
  {
    var stop, literals := BracketsAre(s, live, pair, i);
  }

  // ---------- The matcher ----------

  /** Stretches without brackets and quotes, and stretches without live indexes, do not matter to the lexer. */
  lemma {:induction false} ScanSkips(s: string, live: nat -> bool, pair: Pair, i: nat, j: nat, depth: nat)
    requires i <= j <= |s|
    requires forall k :: i <= k < j ==> !live(k) || s[k] !in {pair.open, pair.close} + QUOTES
    ensures Scan(s, live, pair, i, depth) == Scan(s, live, pair, j, depth)
    decreases j - i
  {
    hide StringAt;
    if i < j {
      ScanSkips(s, live, pair, i + 1, j, depth);
    }
  }

  lemma {:induction false} ScanNeedsClose(s: string, live: nat -> bool, pair: Pair, i: nat, depth: nat)
    requires forall k :: i <= k < |s| ==> s[k] != pair.close
    ensures Scan(s, live, pair, i, depth) == None
  {
  }

  lemma {:induction false} ScanFromFirstLive(s: string, delim: Option<Delimiter>, pair: Pair, i: nat, depth: nat)
    requires i <= |s|
    ensures var live := NotCommented(s, delim);
      Scan(s, live, pair, i, depth)
      == match FirstLive(s, delim, i) case None => None case Some(j) => Scan(s, live, pair, j, depth)
  {
    var first := FirstLive(s, delim, i);
    ScanSkips(s, NotCommented(s, delim), pair, i, if first.Some? then first.value else |s|, depth);
  }

  /** The smallest of the three places found. */
  function MinIndex(close: nat, open: Option<nat>, quote: Option<nat>): (m: nat)
    ensures m <= close && (m == close || Some(m) == open || Some(m) == quote)
    ensures (open.Some? ==> m <= open.value) && (quote.Some? ==> m <= quote.value)
  {
    var m := if open.Some? && open.value < close then open.value else close;
    if quote.Some? && quote.value < m then quote.value else m
  }

  /** `s.find(pat, from, limit)`. */
  function FindWithin(s: string, pat: string, from: nat, limit: nat): (r: Option<nat>)
    requires pat != ""
    ensures r.Some? ==> from <= r.value && r.value + |pat| <= limit && At(s, pat, r.value)
  {
    var r := Find(s, pat, from);
    if r.Some? && r.value + |pat| <= limit then r else None
  }

  /** The places found in one round of the search: the next closing character, the next opening one before it,
      the first literal before it, and the smallest of the three. */
  datatype Useful = Useful(close: nat, open: Option<nat>, quote: ParseString, first: nat)

  /** Which of the three places comes first, by the character that stands there. */
  predicate UsefulIn(s: string, pair: Pair, u: Useful) {
    && u.first <= u.close < |s| && s[u.close] == pair.close
    && (u.first < u.close ==> s[u.first] != pair.close)
    && (u.open == Some(u.first) ==> u.first < u.close && s[u.first] == pair.open)
    && (u.first < u.close && s[u.first] in QUOTES ==> u.quote == StringAt(s, u.first))
    && (u.quote.start == Some(u.first) ==> u.first < u.close && s[u.first] in QUOTES)
    && (u.first == u.close || u.open == Some(u.first) || u.quote.start == Some(u.first))
  }

  lemma {:induction false} FirstFoundIsUseful(s: string, pair: Pair, i: nat, u: Useful)
    requires i <= |s| && FindChar(s, {pair.close}, i, |s|) == Some(u.close)
    requires u.open == FindChar(s, {pair.open}, i, u.close) && u.quote == Parsed(s, i, u.close)
    requires u.first == MinIndex(u.close, u.open, u.quote.start)
    ensures UsefulIn(s, pair, u)
    ensures forall k :: i <= k < u.first ==> s[k] !in {pair.open, pair.close} + QUOTES
  {
  }

  /** What the lexer does at the first of the three places. */
  lemma {:induction false} ScanAtUseful(s: string, live: nat -> bool, pair: Pair, u: Useful, depth: nat)
    requires UsefulIn(s, pair, u) && live(u.first)
    ensures Scan(s, live, pair, u.first, depth) ==
      if u.quote.start == Some(u.first) then
        if u.quote.literal.None? then None
        else WithStrings([u.quote], Scan(s, live, pair, u.quote.literal.value.end, depth))
      else if u.open == Some(u.first) then Scan(s, live, pair, u.first + 1, depth + 1)
      else if depth == 0 then Some(Closing(u.close, []))
      else Scan(s, live, pair, u.close + 1, depth - 1)
  {
    hide StringAt;
  }

  lemma {:induction false} WithStringsTwice(a: seq<ParseString>, b: seq<ParseString>, r: Option<Closing>)
    ensures WithStrings(a, WithStrings(b, r)) == WithStrings(a + b, r)
  {
    if r.Some? {
      assert a + (b + r.value.strings) == (a + b) + r.value.strings;
    }
  }

  /** The loop of _find_closing_char_index: searches until the first place found is on an uncommented line. */
  method FindUseful(delim: Option<Delimiter>, pair: Pair, template: string, startIndex: nat, ghost depth: nat)
    returns (r: Option<Useful>)
    requires startIndex <= |template|
    ensures var live := NotCommented(template, delim);
      Scan(template, live, pair, startIndex, depth)
      == if r.None? then None else Scan(template, live, pair, r.value.first, depth)
    ensures r.Some? ==> startIndex <= r.value.first && Live(template, delim, r.value.first)
    ensures r.Some? ==> UsefulIn(template, pair, r.value)
  {
    hide StringAt, Live;
    var start := UncommentedStartIndex(delim, template, startIndex);
    ghost var live := NotCommented(template, delim);
    ScanFromFirstLive(template, delim, pair, startIndex, depth);
    while start.Some?
      invariant start.Some? ==> startIndex <= start.value <= |template|
      invariant Scan(template, live, pair, startIndex, depth)
             == if start.None? then None else Scan(template, live, pair, start.value, depth)
      decreases if start.Some? then |template| - start.value else 0, start.Some?
    {
      var close := FindChar(template, {pair.close}, start.value, |template|);
      if close.None? {
        ScanNeedsClose(template, live, pair, start.value, depth);
        return None;
      }
      var open := FindChar(template, {pair.open}, start.value, close.value);
      var quote := Parse(template, start.value, close.value);
      var first := MinIndex(close.value, open, quote.start);
      FirstFoundIsUseful(template, pair, start.value, Useful(close.value, open, quote, first));
      ScanSkips(template, live, pair, start.value, first, depth);
      ScanFromFirstLive(template, delim, pair, first, depth);
      start := UncommentedStartIndex(delim, template, first);
      if start == Some(first) {
        return Some(Useful(close.value, open, quote, first));
      }
    }
    r := None;
  }

  /** _find_closing_char_index computes what the one-pass lexer computes. */
  method FindClosingCharIndex(delim: Option<Delimiter>, startDelim: Option<string>, pair: Pair, template: string,
                              startIndex: nat, numOpenChars: nat, strings: seq<ParseString>)
    returns (r: Option<Closing>)
    requires startIndex <= |template| && startDelim != Some("")
    ensures r == WithStrings(strings, Scan(template, NotCommented(template, delim), pair, startIndex, numOpenChars))
    decreases |template| - startIndex
  {
    hide Live, StringAt, Lex;
    var found := FindUseful(delim, pair, template, startIndex, numOpenChars);
    if found.None? {
      return None;
    }
    var Useful(close, open, quote, first) := found.value;
    ghost var live := NotCommented(template, delim);
    ScanAtUseful(template, live, pair, found.value, numOpenChars);
    if quote.start == Some(first) {
      if quote.literal.None? {
        return None;
      }
      r := FindClosingCharIndex(delim, startDelim, pair, template, quote.literal.value.end, numOpenChars,
                                strings + [quote]);
      WithStringsTwice(strings, [quote], Scan(template, live, pair, quote.literal.value.end, numOpenChars));
    } else if open == Some(first) {
      if startDelim.Some? {
        var another := FindWithin(template, startDelim.value, first, close);
        // The guard compares with the place the search began, so it never rejects.
        if another.Some? && another.value < first {
          assert false;
        }
      }
      r := FindClosingCharIndex(delim, startDelim, pair, template, first + 1, numOpenChars + 1, strings);
    } else if numOpenChars == 0 {
      assert strings + [] == strings;
      r := Some(Closing(close, strings));
    } else {
      r := FindClosingCharIndex(delim, startDelim, pair, template, close + 1, numOpenChars - 1, strings);
    }
  }
}
