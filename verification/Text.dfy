/** Python string searching, shared by the linter modules. */
module Text {

  datatype Option<+T> = None | Some(value: T)

  /** What `\s` matches. */
  const WHITESPACE: set<char> := {' ', '\t', '\n', '\r', '\U{00000b}', '\U{00000c}'}

  /** `s.startswith(pat, i)`. */
  predicate At(s: string, pat: string, i: nat): (b: bool)
    ensures b ==> i + |pat| <= |s|
  {
    i + |pat| <= |s| && forall k :: 0 <= k < |pat| ==> s[i + k] == pat[k]
  }

  /** The stretch of the text that begins at i is the pattern. */
  predicate StandsAt(s: string, pat: string, i: nat) {
    i + |pat| <= |s| && s[i..i + |pat|] == pat
  }

  lemma {:induction false} StandsAtIff(s: string, pat: string, i: nat)
    ensures At(s, pat, i) <==> StandsAt(s, pat, i)
  {
    if i + |pat| <= |s| {
      var stretch := s[i..i + |pat|];
      assert forall k :: 0 <= k < |pat| ==> stretch[k] == s[i + k];
    }
  }

  /** `s.find(pat, from)`; the result -1 is modelled by None. */
  function Find(s: string, pat: string, from: nat): (r: Option<nat>)
    requires pat != ""
    ensures r.None? ==> forall i: nat :: from <= i ==> !At(s, pat, i)
    ensures r.Some? ==> from <= r.value && At(s, pat, r.value)
    ensures r.Some? ==> forall i: nat :: from <= i < r.value ==> !At(s, pat, i)
    decreases |s| - from
  {
    if from >= |s| then None
    else if At(s, pat, from) then Some(from)
    else Find(s, pat, from + 1)
  }

  /** The first index in [from, limit) whose character is one of `chars`: `s.find(c, from, limit)` for a
      single character, and the search for a character class. */
  function FindChar(s: string, chars: set<char>, from: nat, limit: nat): (r: Option<nat>)
    requires from <= limit <= |s|
    ensures r.None? ==> forall i: nat :: from <= i < limit ==> s[i] !in chars
    ensures r.Some? ==> from <= r.value < limit && s[r.value] in chars
    ensures r.Some? ==> forall i: nat :: from <= i < r.value ==> s[i] !in chars
    decreases limit - from
  {
    if from == limit then None
    else if s[from] in chars then Some(from)
    else FindChar(s, chars, from + 1, limit)
  }

  /** `\s`. */
  predicate IsSpace(c: char) {
    c in WHITESPACE
  }

  /** The length of the longest prefix whose characters all are of a class. */
  function Span(t: string, holds: char -> bool): (k: nat)
    ensures k <= |t|
    ensures forall i :: 0 <= i < k ==> holds(t[i])
    ensures k < |t| ==> !holds(t[k])
  {
    if t == "" || !holds(t[0]) then 0 else 1 + Span(t[1..], holds)
  }

  /** A prefix of characters of the class that is followed by another one is the longest. */
  lemma SpanIs(t: string, holds: char -> bool, k: nat)
    requires k < |t| && !holds(t[k]) && forall i :: 0 <= i < k ==> holds(t[i])
    ensures Span(t, holds) == k
  {
    var n := Span(t, holds);
    assert n <= k;
  }
}
