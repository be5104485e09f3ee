/** HTML and JavaScript contexts of a Mako template, and the linting of the JavaScript ones
    (scripts/safe_template_linter.py:2082-2127, 2198-2220, 2362-2434). */
module MakoContexts {
  import opened Text

  datatype ContextType = Html | JavaScript | Unknown

  datatype Context = Context(index: nat, kind: ContextType)

  /** A match of the context regular expression: a script tag with its media type if it has one, the start of a
      require block, or an end tag. */
  datatype Tag = Tag(start: nat, end: nat, kind: TagKind)

  datatype TagKind = Script(mediaType: Option<string>) | RequireStart | EndTag

  const JAVASCRIPT_TYPES: set<string> := {
    "text/javascript", "text/ecmascript", "application/ecmascript", "application/javascript",
    "text/x-mathjax-config", "json/xblock-args"
  }

  const HTML_TYPES: set<string> := {"text/template"}

  /** The tags as a search gives them: in order, not empty, not overlapping, inside a text of the given length. */
  ghost predicate InOrder(tags: seq<Tag>, length: nat) {
    && (forall k :: 0 <= k < |tags| ==> tags[k].start < tags[k].end <= length)
    && (forall j, k :: 0 <= j < k < |tags| ==> tags[j].end <= tags[k].start)
  }

  // ---------- Contexts ----------

  function ContextAfter(tag: Tag): Context {
    match tag.kind
    case EndTag => Context(tag.start, Html)
    case RequireStart => Context(tag.end, JavaScript)
    case Script(mediaType) =>
      Context(tag.end,
              if mediaType.None? then JavaScript
              else if mediaType.value in HTML_TYPES then Html
              else if mediaType.value !in JAVASCRIPT_TYPES then Unknown
              else JavaScript)
  }

  /** Contexts start with HTML at the beginning, and their indexes do not go back. */
  ghost predicate ValidContexts(contexts: seq<Context>, length: nat) {
    && contexts != [] && contexts[0] == Context(0, Html)
    && (forall k :: 0 <= k < |contexts| ==> contexts[k].index <= length)
    && (forall j, k :: 0 <= j < k < |contexts| ==> contexts[j].index <= contexts[k].index)
  }

  /** _get_contexts: one context per tag, after the initial one. */
  method GetContexts(tags: seq<Tag>, ghost length: nat) returns (contexts: seq<Context>)
    requires InOrder(tags, length)
    ensures ValidContexts(contexts, length) && |contexts| == |tags| + 1
    ensures forall k :: 0 <= k < |tags| ==> contexts[k + 1] == ContextAfter(tags[k])
  {
    contexts := [Context(0, Html)];
    for i := 0 to |tags|
      invariant ValidContexts(contexts, length) && |contexts| == i + 1
      invariant forall k :: 0 <= k < i ==> contexts[k + 1] == ContextAfter(tags[k])
      invariant i > 0 ==> contexts[i].index <= tags[i - 1].end
    {
      var index, kind := tags[i].end, JavaScript;
      if tags[i].kind.Script? {
        var mediaType := tags[i].kind.mediaType;
        if mediaType.Some? {
          if mediaType.value in HTML_TYPES {
            kind := Html;
          } else if mediaType.value !in JAVASCRIPT_TYPES {
            kind := Unknown;
          }
        }
      } else if tags[i].kind.EndTag? {
        index, kind := tags[i].start, Html;
      }
      contexts := contexts + [Context(index, kind)];
    }
  }

  /** The context of an index is that of the last entry at or before it. */
  ghost predicate IsContextOf(contexts: seq<Context>, index: nat, kind: ContextType) {
    exists k :: IsLastBefore(contexts, index, k) && contexts[k].kind == kind
  }

  predicate IsLastBefore(contexts: seq<Context>, index: nat, k: int) {
    0 <= k < |contexts| && contexts[k].index <= index && forall j :: k < j < |contexts| ==> index < contexts[j].index
  }

  /** _get_context. */
  method GetContext(contexts: seq<Context>, index: nat, ghost length: nat) returns (kind: ContextType)
    requires ValidContexts(contexts, length)
    ensures forall other :: IsContextOf(contexts, index, other) <==> other == kind
  {
    kind := contexts[0].kind;
    var i := 0;
    while i < |contexts|
      invariant i <= |contexts|
      invariant kind == contexts[if i == 0 then 0 else i - 1].kind
      invariant forall j :: 0 <= j < i ==> contexts[j].index <= index
    {
      if contexts[i].index <= index {
        kind := contexts[i].kind;
      } else {
        break;
      }
      i := i + 1;
    }
    assert IsLastBefore(contexts, index, i - 1);
  }

  /** The start of a require block opens JavaScript, as does a script without a media type or with a type of
      scripts; a script that holds a template and every end tag open HTML. */
  function Opens(tag: Tag): ContextType {
    if tag.kind.EndTag? || tag.kind == Script(Some("text/template")) then Html
    else if tag.kind.RequireStart? || tag.kind.mediaType.None? then JavaScript
    else if || tag.kind.mediaType.value == "text/javascript" || tag.kind.mediaType.value == "text/ecmascript"
            || tag.kind.mediaType.value == "application/ecmascript"
            || tag.kind.mediaType.value == "application/javascript"
            || tag.kind.mediaType.value == "text/x-mathjax-config"
            || tag.kind.mediaType.value == "json/xblock-args" then JavaScript
    else Unknown
  }

  function Boundary(tag: Tag): nat {
    if tag.kind.EndTag? then tag.start else tag.end
  }

  /** The last tag that counts at p: an end tag counts from its start on, any other from its end on. */
  predicate LastTag(tags: seq<Tag>, p: nat, k: nat) {
    && k < |tags|
    && Boundary(tags[k]) <= p && forall j :: k < j < |tags| ==> p < Boundary(tags[j])
  }

  /** The context of an index by the tags before it: HTML without one, and otherwise what the last one opens. */
  lemma {:induction false} ContextByLastTag(tags: seq<Tag>, contexts: seq<Context>, length: nat, p: nat,
                                            kind: ContextType)
    requires InOrder(tags, length) && ValidContexts(contexts, length) && |contexts| == |tags| + 1
    requires forall k :: 0 <= k < |tags| ==> contexts[k + 1] == ContextAfter(tags[k])
    ensures IsContextOf(contexts, p, kind) <==>
      || ((forall k: nat :: !LastTag(tags, p, k)) && kind == Html)
      || exists k: nat :: LastTag(tags, p, k) && kind == Opens(tags[k])
  {
    forall k: nat | k < |tags|
      ensures contexts[k + 1].index == Boundary(tags[k]) && contexts[k + 1].kind == Opens(tags[k])
    {
    }
    hide ContextAfter, Opens;
    forall k: nat
      ensures LastTag(tags, p, k) <==> IsLastBefore(contexts, p, k + 1)
    {
      LastTagIsLast(tags, contexts, p, k);
    }
    LastBeforeExists(contexts, length, p);
    var last: nat :| IsLastBefore(contexts, p, last) && forall j :: IsLastBefore(contexts, p, j) ==> j == last;
    hide IsLastBefore, LastTag;
    if last > 0 {
      assert LastTag(tags, p, last - 1);
    }
  }

  lemma {:induction false} LastTagIsLast(tags: seq<Tag>, contexts: seq<Context>, p: nat, k: nat)
    requires |contexts| == |tags| + 1 && forall k: nat :: k < |tags| ==> contexts[k + 1].index == Boundary(tags[k])
    ensures LastTag(tags, p, k) <==> IsLastBefore(contexts, p, k + 1)
  {
    if LastTag(tags, p, k) {
      forall j | k + 1 < j < |contexts| ensures p < contexts[j].index {
        assert contexts[j - 1 + 1].index == Boundary(tags[j - 1]);
      }
    }
  }

  lemma {:induction false} LastBeforeExists(contexts: seq<Context>, length: nat, p: nat)
    requires ValidContexts(contexts, length)
    ensures exists k: nat :: IsLastBefore(contexts, p, k) && forall j :: IsLastBefore(contexts, p, j) ==> j == k
  {
    KindFromIsContext(contexts, 1, p, length);
    var k: nat :| IsLastBefore(contexts, p, k);
    assert forall j :: IsLastBefore(contexts, p, j) ==> j == k;
  }

  // ---------- JavaScript slices ----------

  datatype Slice = Slice(start: nat, end: nat)

  /** The slices from context i on, when a slice is open since `open`, if it is. */
  function SlicesFrom(contexts: seq<Context>, i: nat, open: Option<nat>, length: nat): seq<Slice>
    requires i <= |contexts|
    decreases |contexts| - i
  {
    if i == |contexts| then if open.Some? then [Slice(open.value, length)] else []
    else if contexts[i].kind.JavaScript? then
      SlicesFrom(contexts, i + 1, if open.None? then Some(contexts[i].index) else open, length)
    else
      (if open.Some? then [Slice(open.value, contexts[i].index)] else []) + SlicesFrom(contexts, i + 1, None, length)
  }

  function Slices(contexts: seq<Context>, length: nat): seq<Slice> {
    SlicesFrom(contexts, 0, None, length)
  }

  /** p is in one of the slices. */
  ghost predicate Held(slices: seq<Slice>, p: nat) {
    exists k :: 0 <= k < |slices| && slices[k].start <= p < slices[k].end
  }

  lemma {:induction false} HeldCons(first: Slice, rest: seq<Slice>, p: nat)
    ensures Held([first] + rest, p) <==> first.start <= p < first.end || Held(rest, p)
  {
    var all := [first] + rest;
    assert all[0] == first && forall k :: 0 <= k < |rest| ==> rest[k] == all[k + 1];
  }

  /** The kind that context i-1, of the given kind, or a later context gives to p. */
  function KindFrom(contexts: seq<Context>, i: nat, kind: ContextType, p: nat): ContextType
    requires i <= |contexts|
    decreases |contexts| - i
  {
    if i == |contexts| || p < contexts[i].index then kind else KindFrom(contexts, i + 1, contexts[i].kind, p)
  }

  lemma {:induction false} KindFromIsContext(contexts: seq<Context>, i: nat, p: nat, length: nat)
    requires ValidContexts(contexts, length) && 0 < i <= |contexts| && contexts[i - 1].index <= p
    ensures IsContextOf(contexts, p, KindFrom(contexts, i, contexts[i - 1].kind, p))
    decreases |contexts| - i
  {
    if i == |contexts| || p < contexts[i].index {
      assert IsLastBefore(contexts, p, i - 1);
    } else {
      KindFromIsContext(contexts, i + 1, p, length);
    }
  }

  lemma {:induction false} SlicesFromHold(contexts: seq<Context>, i: nat, open: Option<nat>, kind: ContextType,
                                          length: nat, p: nat)
    requires ValidContexts(contexts, length) && i <= |contexts| && p < length
    requires open.Some? == kind.JavaScript?
    requires open.Some? ==> forall j :: i <= j < |contexts| ==> open.value <= contexts[j].index
    ensures Held(SlicesFrom(contexts, i, open, length), p)
        <==> KindFrom(contexts, i, kind, p) == JavaScript && (open.Some? ==> open.value <= p)
    decreases |contexts| - i
  {
    if i == |contexts| {
      if open.Some? {
        HeldCons(Slice(open.value, length), [], p);
      }
    } else {
      var c := contexts[i];
      var next: Option<nat> := if !c.kind.JavaScript? then None else if open.None? then Some(c.index) else open;
      SlicesFromHold(contexts, i + 1, next, c.kind, length, p);
      if !c.kind.JavaScript? {
        var rest := SlicesFrom(contexts, i + 1, None, length);
        if open.Some? {
          HeldCons(Slice(open.value, c.index), rest, p);
        } else {
          assert [] + rest == rest;
        }
      }
    }
  }

  /** The slices hold exactly the indexes whose context is JavaScript. */
  lemma {:induction false} SlicesHoldJavaScript(contexts: seq<Context>, length: nat, p: nat)
    requires ValidContexts(contexts, length) && p < length
    ensures Held(Slices(contexts, length), p) <==> IsContextOf(contexts, p, JavaScript)
  {
    SlicesFromHold(contexts, 0, None, Html, length, p);
    KindFromIsContext(contexts, 1, p, length);
    assert KindFrom(contexts, 0, Html, p) == KindFrom(contexts, 1, Html, p);
    var kind := KindFrom(contexts, 1, Html, p);
    forall other | IsContextOf(contexts, p, other) ensures other == kind {
      var j :| IsLastBefore(contexts, p, j) && contexts[j].kind == kind;
      var k :| IsLastBefore(contexts, p, k) && contexts[k].kind == other;
    }
  }

  /** The slices lie between two indexes, in order and without overlap. */
  ghost predicate OrderedSlices(slices: seq<Slice>, low: nat, high: nat) {
    && (forall k :: 0 <= k < |slices| ==> low <= slices[k].start <= slices[k].end <= high)
    && (forall j, k :: 0 <= j < k < |slices| ==> slices[j].end <= slices[k].start)
  }

  lemma {:induction false} OrderedCons(first: Slice, rest: seq<Slice>, low: nat, high: nat)
    requires low <= first.start <= first.end <= high && OrderedSlices(rest, first.end, high)
    ensures OrderedSlices([first] + rest, low, high)
  {
  }

  lemma {:induction false} OrderedFew(slices: seq<Slice>, low: nat, high: nat)
    requires |slices| <= 1 && forall k :: 0 <= k < |slices| ==> low <= slices[k].start <= slices[k].end <= high
    ensures OrderedSlices(slices, low, high)
  {
  }

  lemma {:induction false} OrderedFromLower(slices: seq<Slice>, mid: nat, low: nat, high: nat)
    requires low <= mid && OrderedSlices(slices, mid, high)
    ensures OrderedSlices(slices, low, high)
  {
  }

  lemma {:induction false} SlicesFromOrdered(contexts: seq<Context>, i: nat, open: Option<nat>, length: nat, low: nat)
    requires ValidContexts(contexts, length) && i <= |contexts| && low <= length
    requires forall j :: i <= j < |contexts| ==> low <= contexts[j].index
    requires open.Some? ==> open.value == low
    ensures OrderedSlices(SlicesFrom(contexts, i, open, length), low, length)
    decreases |contexts| - i
  {
    hide OrderedSlices;
    if i == |contexts| {
      OrderedFew(SlicesFrom(contexts, i, open, length), low, length);
    } else {
      var c := contexts[i];
      if c.kind.JavaScript? {
        var next := if open.None? then Some(c.index) else open;
        SlicesFromOrdered(contexts, i + 1, next, length, next.value);
        OrderedFromLower(SlicesFrom(contexts, i + 1, next, length), next.value, low, length);
      } else {
        SlicesFromOrdered(contexts, i + 1, None, length, c.index);
        var rest := SlicesFrom(contexts, i + 1, None, length);
        if open.Some? {
          OrderedCons(Slice(open.value, c.index), rest, low, length);
        } else {
          OrderedFromLower(rest, c.index, low, length);
          assert [] + rest == rest;
        }
      }
    }
  }

  /** The slices lie in the template, in order and without overlap. */
  lemma {:induction false} SlicesOrdered(contexts: seq<Context>, length: nat)
    requires ValidContexts(contexts, length)
    ensures OrderedSlices(Slices(contexts, length), 0, length)
  {
    SlicesFromOrdered(contexts, 0, None, length, 0);
  }
}
