/** Conversion between indexes of a text and its lines (scripts/safe_template_linter.py:16-185). */
module StringLines {
  import opened Text

  // ---------- Specification ----------

  /** The number of line breaks before index n. */
  function Newlines(s: string, n: nat): nat
    requires n <= |s|
  {
    if n == 0 then 0 else Newlines(s, n - 1) + if s[n - 1] == '\n' then 1 else 0
  }

  /** A line begins at index k. */
  predicate IsLineStart(s: string, k: nat) {
    k == 0 || (k <= |s| && s[k - 1] == '\n')
  }

  /** The start of the line that holds index i. */
  function LineStart(s: string, i: nat): (k: nat)
    ensures k <= i && IsLineStart(s, k)
    ensures forall j :: k < j <= i ==> !IsLineStart(s, j)
  {
    if IsLineStart(s, i) then i else LineStart(s, i - 1)
  }

  /** The one-based number of the line that holds index i. */
  function LineNumber(s: string, i: nat): nat {
    1 + Newlines(s, if i <= |s| then i else |s|)
  }

  function LineCount(s: string): nat {
    1 + Newlines(s, |s|)
  }

  /** The sequence of the line starts not after n, in order. */
  function LineStarts(s: string, n: nat): (starts: seq<nat>)
    requires n <= |s|
    ensures |starts| == 1 + Newlines(s, n) && starts[0] == 0
    ensures forall k :: 0 <= k < |starts| ==> starts[k] <= n && IsLineStart(s, starts[k])
    ensures forall j, k :: 0 <= j < k < |starts| ==> starts[j] < starts[k]
  {
    if n == 0 then [0]
    else LineStarts(s, n - 1) + if s[n - 1] == '\n' then [n] else []
  }

  /** The start and the exclusive end of line n, its line break included, and its text without the break. */
  function StartOf(s: string, n: nat): nat
    requires 1 <= n <= LineCount(s)
  {
    LineStarts(s, |s|)[n - 1]
  }

  function EndOf(s: string, n: nat): nat
    requires 1 <= n <= LineCount(s)
  {
    if n < LineCount(s) then LineStarts(s, |s|)[n] else |s|
  }

  function LineText(s: string, n: nat): string
    requires 1 <= n <= LineCount(s)
  {
    if n == LineCount(s) then s[StartOf(s, n)..] else s[StartOf(s, n)..EndOf(s, n) - 1]
  }

  /** `"\n".join` of lines n and after. */
  function JoinFrom(s: string, n: nat): string
    requires 1 <= n <= LineCount(s)
    decreases LineCount(s) - n
  {
    if n == LineCount(s) then LineText(s, n) else LineText(s, n) + "\n" + JoinFrom(s, n + 1)
  }

  // ---------- Properties ----------

  /** The starts up to m begin with the starts up to n, and the rest lie after n. */
  lemma {:induction false} StartsExtend(s: string, n: nat, m: nat)
    requires n <= m <= |s|
    ensures LineStarts(s, n) <= LineStarts(s, m)
    ensures forall k :: |LineStarts(s, n)| <= k < |LineStarts(s, m)| ==> n < LineStarts(s, m)[k]
    ensures (forall j :: n <= j < m ==> s[j] != '\n') ==> LineStarts(s, n) == LineStarts(s, m)
  {
    if n < m {
      StartsExtend(s, n, m - 1);
    }
  }

  /** Line starts are complete: every index at which a line begins is listed. */
  lemma {:induction false} StartsComplete(s: string, k: nat)
    requires IsLineStart(s, k) && k <= |s|
    ensures LineNumber(s, k) <= LineCount(s) && StartOf(s, LineNumber(s, k)) == k
  {
    StartsExtend(s, k, |s|);
  }

  lemma {:induction false} NewlinesSinceLineStart(s: string, i: nat)
    requires i <= |s|
    ensures Newlines(s, i) == Newlines(s, LineStart(s, i))
  {
    if !IsLineStart(s, i) {
      NewlinesSinceLineStart(s, i - 1);
    }
  }

  lemma {:induction false} LineStartPastEnd(s: string, i: nat)
    requires |s| <= i
    ensures LineStart(s, i) == LineStart(s, |s|)
  {
  }

  /** index_to_line_start_index agrees with walking back to the last line break. */
  lemma {:induction false} StartOfLineNumber(s: string, i: nat)
    ensures 1 <= LineNumber(s, i) <= LineCount(s)
    ensures StartOf(s, LineNumber(s, i)) == LineStart(s, i)
  {
    var j := if i <= |s| then i else |s|;
    if i > |s| {
      LineStartPastEnd(s, i);
    }
    NewlinesSinceLineStart(s, j);
    StartsExtend(s, j, |s|);
    StartsComplete(s, LineStart(s, j));
  }

  /** An index, its line and its column: the line holds the index, and line and column give it back. */
  lemma {:induction false} Located(s: string, i: nat)
    requires i <= |s|
    ensures var n := LineNumber(s, i);
      1 <= n <= LineCount(s)
      && StartOf(s, n) <= i
      && (n < LineCount(s) ==> i < EndOf(s, n))
  {
    StartOfLineNumber(s, i);
    StartsExtend(s, i, |s|);
  }

  lemma {:induction false} LineNumberInLine(s: string, n: nat, i: nat)
    requires 1 <= n <= LineCount(s) && StartOf(s, n) <= i <= |s| && (n < LineCount(s) ==> i < EndOf(s, n))
    ensures LineNumber(s, i) == n
  {
    StartsExtend(s, i, |s|);
  }

  /** The ranges [StartOf, EndOf) partition the text: consecutive, the first at 0 and the last ending at the end,
      each holding the indexes of its line; every line but the last ends in a line break. */
  lemma {:induction false} LinesPartition(s: string, n: nat)
    requires 1 <= n <= LineCount(s)
    ensures StartOf(s, 1) == 0 && EndOf(s, LineCount(s)) == |s|
    ensures StartOf(s, n) <= EndOf(s, n)
    ensures n < LineCount(s) ==>
      StartOf(s, n) < EndOf(s, n) && EndOf(s, n) == StartOf(s, n + 1) && s[EndOf(s, n) - 1] == '\n'
    ensures forall i :: StartOf(s, n) <= i < EndOf(s, n) ==> LineNumber(s, i) == n
  {
    forall i | StartOf(s, n) <= i < EndOf(s, n)
      ensures LineNumber(s, i) == n
    {
      LineNumberInLine(s, n, i);
    }
  }

  lemma {:induction false} NoBreakInside(s: string, n: nat, i: nat)
    requires 1 <= n <= LineCount(s) && StartOf(s, n) <= i < |s| && (n < LineCount(s) ==> i + 1 < EndOf(s, n))
    ensures s[i] != '\n'
  {
    LineNumberInLine(s, n, i);
    LineNumberInLine(s, n, i + 1);
    hide LineStarts, StartOf, EndOf;
    assert Newlines(s, i) == Newlines(s, i + 1);
  }

  /** The text of a line holds no line break. */
  lemma {:induction false} LineTextHasNoBreak(s: string, n: nat)
    requires 1 <= n <= LineCount(s)
    ensures '\n' !in LineText(s, n)
  {
    LinesPartition(s, n);
    hide LineStarts, StartOf, EndOf, Newlines;
    forall k | 0 <= k < |LineText(s, n)|
      ensures LineText(s, n)[k] != '\n'
    {
      NoBreakInside(s, n, StartOf(s, n) + k);
    }
  }

  lemma {:induction false} CutAtBreak(s: string, from: nat, end: nat)
    requires from < end <= |s| && s[end - 1] == '\n'
    ensures s[from..] == s[from..end - 1] + "\n" + s[end..]
  {
  }

  /** A line that is not the last is the text up to its break, and the next line begins after it. */
  lemma {:induction false} LineThenRest(s: string, n: nat)
    requires 1 <= n < LineCount(s)
    ensures StartOf(s, n) < StartOf(s, n + 1) <= |s|
    ensures s[StartOf(s, n)..] == LineText(s, n) + "\n" + s[StartOf(s, n + 1)..]
  {
    LinesPartition(s, n);
    hide LineStarts, Newlines, StartOf;
    CutAtBreak(s, StartOf(s, n), EndOf(s, n));
  }

  lemma {:induction false} JoinFromIsSuffix(s: string, n: nat)
    requires 1 <= n <= LineCount(s)
    ensures JoinFrom(s, n) == s[StartOf(s, n)..]
    decreases LineCount(s) - n
  {
    hide LineStarts, Newlines, StartOf, EndOf;
    if n < LineCount(s) {
      JoinFromIsSuffix(s, n + 1);
      LineThenRest(s, n);
    }
  }

  /** Joining all lines with line breaks gives the text back. */
  lemma {:induction false} JoinRestoresText(s: string)
    ensures JoinFrom(s, 1) == s
  {
    JoinFromIsSuffix(s, 1);
  }

  lemma {:induction false} NewlinesMonotone(s: string, i: nat, j: nat)
    requires i <= j <= |s|
    ensures Newlines(s, i) <= Newlines(s, j)
  {
    if i < j {
      NewlinesMonotone(s, i, j - 1);
    }
  }

  // ---------- The class ----------

  class StringLines {
    var text: string
    var lineStarts: seq<nat>
    var eofIndex: nat

    ghost predicate Valid()
      reads this
    {
      lineStarts == LineStarts(text, |text|) && eofIndex == |text|
    }

    constructor (s: string)
      ensures Valid() && text == s
    {
      text := s;
      eofIndex := |s|;
      var starts := ProcessLineBreaks(s);
      lineStarts := starts;
    }

    static method ProcessLineBreaks(s: string) returns (starts: seq<nat>)
      ensures starts == LineStarts(s, |s|)
    {
      starts := [0];
      var index := 0;
      while true
        invariant index <= |s| && starts == LineStarts(s, index)
        decreases |s| - index
      {
        var found := Find(s, "\n", index);
        if found.None? {
          assert forall j :: index <= j < |s| ==> s[j] != '\n' by {
            forall j | index <= j < |s| ensures s[j] != '\n' { assert !At(s, "\n", j); }
          }
          StartsExtend(s, index, |s|);
          break;
        }
        assert forall j :: index <= j < found.value ==> s[j] != '\n' by {
          forall j | index <= j < found.value ensures s[j] != '\n' { assert !At(s, "\n", j); }
        }
        StartsExtend(s, index, found.value);
        assert s[found.value + 0] == "\n"[0];
        index := found.value + 1;
        starts := starts + [index];
      }
    }

    method IndexToLineNumber(index: nat) returns (n: nat)
      requires Valid()
      ensures n == LineNumber(text, index) && 1 <= n <= LineCount(text)
    {
      ghost var i := if index <= |text| then index else |text|;
      StartsExtend(text, i, |text|);
      n := 0;
      var k := 0;
      while k < |lineStarts|
        invariant n == k <= LineNumber(text, index) <= |lineStarts|
      {
        if lineStarts[k] <= index {
          n := n + 1;
        } else {
          break;
        }
        k := k + 1;
      }
    }

    method LineNumberToStartIndex(n: nat) returns (k: nat)
      requires Valid() && 1 <= n <= LineCount(text)
      ensures k == StartOf(text, n)
    {
      k := lineStarts[n - 1];
    }

    method LineNumberToEndIndex(n: nat) returns (k: nat)
      requires Valid() && 1 <= n <= LineCount(text)
      ensures k == EndOf(text, n)
    {
      if n < |lineStarts| {
        k := lineStarts[n];
      } else {
        k := eofIndex;
      }
    }

    method IndexToLineStartIndex(index: nat) returns (k: nat)
      requires Valid()
      ensures k == LineStart(text, index)
    {
      var n := IndexToLineNumber(index);
      StartOfLineNumber(text, index);
      k := LineNumberToStartIndex(n);
    }

    method IndexToLineEndIndex(index: nat) returns (k: nat)
      requires Valid()
      ensures 1 <= LineNumber(text, index) <= LineCount(text) && k == EndOf(text, LineNumber(text, index))
    {
      var n := IndexToLineNumber(index);
      k := LineNumberToEndIndex(n);
    }

    method IndexToColumnNumber(index: nat) returns (column: nat)
      requires Valid()
      ensures 1 <= column && LineStart(text, index) + column - 1 == index
    {
      var start := IndexToLineStartIndex(index);
      column := index - start + 1;
    }

    method LineNumberToLine(n: nat) returns (line: string)
      requires Valid() && 1 <= n <= LineCount(text)
      ensures line == LineText(text, n)
    {
      var start := lineStarts[n - 1];
      if |lineStarts| == n {
        line := text[start..];
      } else {
        var end := lineStarts[n];
        line := text[start..end - 1];
      }
    }
  }
}
