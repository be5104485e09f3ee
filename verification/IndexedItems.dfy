/** What a run of the indexer does, by the places of the items in the course tree
    (cms/djangoapps/contentstore/courseware_index.py:166-274). */
module IndexedItems {
  import opened Text
  import opened CourseIndex
  import opened IndexSchedule

  /** The items met on a path of positions: the first position is one in the given list, each further position that
      of a published child of an item that has children. */
  predicate Along(items: seq<Item>, path: seq<nat>, met: seq<Item>) {
    && |path| == |met| > 0
    && path[0] < |items| && met[0] == items[path[0]]
    && forall k: nat :: 0 < k < |path| ==> StepsDown(met[k - 1], path[k], met[k])
  }

  predicate StepsDown(item: Item, position: nat, child: Item) {
    && item.hasChildren && position < |item.children|
    && child == item.children[position] && child.published
  }

  /** The item has something to index. */
  predicate HasFields(item: Item) {
    item.dictionary.Some? && item.dictionary.value != map[]
  }

  function End(met: seq<Item>): Item
    requires met != []
  {
    met[|met| - 1]
  }

  /** The entry holds the last item's own fields, and the times of the items above it. */
  predicate EntryFor(course: string, met: seq<Item>, x: Entry) {
    && met != [] && HasFields(End(met))
    && x.doc == Doc(course, End(met).id, End(met).dictionary.value)
    && |x.above| == |met| - 1
    && forall k :: 0 <= k < |x.above| ==> x.above[k] == met[k].subtreeEditedOn
  }

  /** Children before their parent, and otherwise by position. */
  predicate Precedes(p: seq<nat>, q: seq<nat>) {
    p != [] && (q == [] || p[0] < q[0] || (p[0] == q[0] && Precedes(p[1..], q[1..])))
  }

  ghost predicate SentAt(course: string, items: seq<Item>, path: seq<nat>, x: Entry) {
    exists met :: Along(items, path, met) && EntryFor(course, met, x)
  }

  /** The entries are those at the given paths: all paths to an item with fields, each once, children first. */
  ghost predicate Traversal(course: string, items: seq<Item>, entries: seq<Entry>, paths: seq<seq<nat>>) {
    && |paths| == |entries|
    && (forall k :: 0 <= k < |paths| ==> SentAt(course, items, paths[k], entries[k]))
    && (forall path, met :: Along(items, path, met) && HasFields(End(met)) ==> path in paths)
    && (forall j, k :: 0 <= j < k < |paths| ==> Precedes(paths[j], paths[k]))
  }

  // ---------- Below one item ----------

  /** The items met on a path that starts at an item, the item itself included. */
  predicate Down(item: Item, path: seq<nat>, met: seq<Item>) {
    && |met| == |path| + 1 && met[0] == item
    && forall k :: 0 <= k < |path| ==> StepsDown(met[k], path[k], met[k + 1])
  }

  lemma DownStep(item: Item, path: seq<nat>, met: seq<Item>)
    requires path != [] && |met| == |path| + 1
    ensures Down(item, path, met)
        <==> met[0] == item && StepsDown(item, path[0], met[1]) && Down(met[1], path[1..], met[1..])
  {
    if met[0] == item && StepsDown(item, path[0], met[1]) && Down(met[1], path[1..], met[1..]) {
      forall k | 0 <= k < |path|
        ensures StepsDown(met[k], path[k], met[k + 1])
      {
        if k > 0 {
          assert StepsDown(met[1..][k - 1], path[1..][k - 1], met[1..][k]);
        }
      }
    } else if Down(item, path, met) {
      forall k | 0 <= k < |path| - 1
        ensures StepsDown(met[1..][k], path[1..][k], met[1..][k + 1])
      {
        assert StepsDown(met[k + 1], path[k + 1], met[k + 2]);
      }
    }
  }

  lemma AlongIsDown(items: seq<Item>, path: seq<nat>, met: seq<Item>)
    requires path != [] && |met| == |path|
    ensures Along(items, path, met) <==> path[0] < |items| && Down(items[path[0]], path[1..], met)
  {
    if path[0] < |items| && Down(items[path[0]], path[1..], met) {
      forall k: nat | 0 < k < |path|
        ensures StepsDown(met[k - 1], path[k], met[k])
      {
        assert StepsDown(met[k - 1], path[1..][k - 1], met[k]);
      }
    } else if Along(items, path, met) {
      forall k | 0 <= k < |path| - 1
        ensures StepsDown(met[k], path[1..][k], met[k + 1])
      {
        assert StepsDown(met[k + 1 - 1], path[k + 1], met[k + 1]);
      }
    }
  }

  /** As EntryFor, with the times that are above the first item put before. */
  predicate EntryUnder(course: string, above: seq<int>, met: seq<Item>, x: Entry)
    requires met != []
  {
    && HasFields(End(met))
    && x.doc == Doc(course, End(met).id, End(met).dictionary.value)
    && |x.above| == |above| + |met| - 1 && above == x.above[..|above|]
    && forall k: nat :: k < |met| - 1 ==> StampAt(x.above, |above| + k, met[k])
  }

  predicate StampAt(times: seq<int>, k: nat, item: Item) {
    k < |times| && times[k] == item.subtreeEditedOn
  }

  lemma EntryUnderChild(course: string, above: seq<int>, met: seq<Item>, x: Entry)
    requires |met| > 1 && EntryUnder(course, above + [met[0].subtreeEditedOn], met[1..], x)
    ensures EntryUnder(course, above, met, x)
  {
    var first := above + [met[0].subtreeEditedOn];
    assert above == first[..|above|] && x.above[|above|] == first[|above|];
    forall k: nat | k < |met| - 1
      ensures StampAt(x.above, |above| + k, met[k])
    {
      if k > 0 {
        assert StampAt(x.above, |first| + (k - 1), met[1..][k - 1]);
      }
    }
  }

  ghost predicate FoundBelow(course: string, item: Item, above: seq<int>, path: seq<nat>, x: Entry) {
    exists met :: Down(item, path, met) && EntryUnder(course, above, met, x)
  }

  predicate Open(items: seq<Item>, first: nat, publishedOnly: bool, path: seq<nat>) {
    path != [] && first <= path[0] < |items| && (publishedOnly ==> items[path[0]].published)
  }

  ghost predicate LeadsBelow(item: Item, path: seq<nat>) {
    exists met :: Down(item, path, met) && HasFields(End(met))
  }

  /** The paths from an item to the items with fields, children first. */
  function Below(item: Item): seq<seq<nat>>
    decreases item, 0
  {
    (if item.hasChildren then PathsFrom(item.children, 0, true) else []) + (if HasFields(item) then [[]] else [])
  }

  /** The paths that begin at a position from `first` on. */
  function PathsFrom(items: seq<Item>, first: nat, publishedOnly: bool): seq<seq<nat>>
    decreases items, |items| - first
  {
    if first >= |items| then []
    else
      (if publishedOnly && !items[first].published then [] else Prefixed(first, Below(items[first])))
      + PathsFrom(items, first + 1, publishedOnly)
  }

  function Prefixed(position: nat, paths: seq<seq<nat>>): (r: seq<seq<nat>>)
    ensures |r| == |paths| && forall k :: 0 <= k < |paths| ==> r[k] == [position] + paths[k]
  {
    if paths == [] then [] else [[position] + paths[0]] + Prefixed(position, paths[1..])
  }

  ghost predicate Sorted(paths: seq<seq<nat>>) {
    forall j, k :: 0 <= j < k < |paths| ==> Precedes(paths[j], paths[k])
  }

  /** What the traversal of one item gives. */
  ghost predicate ItemTraversed(course: string, item: Item, above: seq<int>, entries: seq<Entry>, paths: seq<seq<nat>>)
  {
    && |paths| == |entries| && Sorted(paths)
    && (forall k :: 0 <= k < |paths| ==> FoundBelow(course, item, above, paths[k], entries[k]))
    && (forall path :: LeadsBelow(item, path) ==> path in paths)
  }

  /** What the traversal of a list gives, from a position on. */
  ghost predicate ListTraversed(course: string, items: seq<Item>, first: nat, publishedOnly: bool, above: seq<int>,
                                entries: seq<Entry>, paths: seq<seq<nat>>)
  {
    && |paths| == |entries| && Sorted(paths)
    && (forall k :: 0 <= k < |paths| ==>
          Open(items, first, publishedOnly, paths[k])
          && FoundBelow(course, items[paths[k][0]], above, paths[k][1..], entries[k]))
    && (forall path :: Open(items, first, publishedOnly, path) && LeadsBelow(items[path[0]], path[1..]) ==>
          path in paths)
  }

  lemma {:induction false} TraverseItem(course: string, item: Item, above: seq<int>)
    ensures ItemTraversed(course, item, above, Entries(course, item, above), Below(item))
    decreases item, 0
  {
    var stamps := above + [item.subtreeEditedOn];
    var inner, entries := if item.hasChildren then PathsFrom(item.children, 0, true) else [],
                          if item.hasChildren then EntriesOf(course, item.children, stamps, true) else [];
    var own := if HasFields(item) then [Entry(Doc(course, item.id, item.dictionary.value), above)] else [];
    assert Below(item) == inner + if HasFields(item) then [[]] else [];
    assert Entries(course, item, above) == entries + own;
    hide Entries, EntriesOf, Below, PathsFrom, ItemTraversed, ListTraversed;
    if item.hasChildren {
      TraverseList(course, item.children, 0, true, stamps);
      assert item.children[0..] == item.children;
    }
    JoinOwn(course, item, above, entries, inner);
  }

  /** The children's traversal, followed by the item's own document. */
  lemma JoinOwn(course: string, item: Item, above: seq<int>, entries: seq<Entry>, inner: seq<seq<nat>>)
    requires if item.hasChildren
             then ListTraversed(course, item.children, 0, true, above + [item.subtreeEditedOn], entries, inner)
             else entries == [] && inner == []
    ensures ItemTraversed(course, item, above,
      entries + (if HasFields(item) then [Entry(Doc(course, item.id, item.dictionary.value), above)] else []),
      inner + if HasFields(item) then [[]] else [])
  {
    var under := inner + if HasFields(item) then [[]] else [];
    var own := if HasFields(item) then [Entry(Doc(course, item.id, item.dictionary.value), above)] else [];
    var below := entries + own;
    assert HasFields(item) ==> FoundBelow(course, item, above, [], own[0]) by {
      assert Down(item, [], [item]);
      assert HasFields(item) ==> EntryUnder(course, above, [item], own[0]);
    }
    hide FoundBelow, LeadsBelow, Precedes, HasFields;
    forall k | 0 <= k < |under|
      ensures FoundBelow(course, item, above, under[k], below[k])
    {
      if k < |inner| {
        FoundThroughChild(course, item, above, inner[k], entries[k]);
      }
    }
    forall path | LeadsBelow(item, path)
      ensures path in under
    {
      LeadsThroughChild(item, path);
      if path == [] {
        assert under[|inner|] == path;
      }
    }
    assert Sorted(under) by {
      LastSorted(item, inner);
    }
  }

  lemma LastSorted(item: Item, inner: seq<seq<nat>>)
    requires Sorted(inner) && forall k :: 0 <= k < |inner| ==> Open(item.children, 0, true, inner[k])
    ensures Sorted(inner + [[]]) && Sorted(inner + [])
  {
  }

  lemma FoundThroughChild(course: string, item: Item, above: seq<int>, path: seq<nat>, x: Entry)
    requires item.hasChildren && Open(item.children, 0, true, path)
    requires FoundBelow(course, item.children[path[0]], above + [item.subtreeEditedOn], path[1..], x)
    ensures FoundBelow(course, item, above, path, x)
  {
    var child, stamps := item.children[path[0]], above + [item.subtreeEditedOn];
    var met :| Down(child, path[1..], met) && EntryUnder(course, stamps, met, x);
    var all := [item] + met;
    assert all[1..] == met;
    DownStep(item, path, all);
    EntryUnderChild(course, above, all, x);
  }

  lemma LeadsThroughChild(item: Item, path: seq<nat>)
    requires LeadsBelow(item, path)
    ensures path == [] ==> HasFields(item)
    ensures path != [] ==>
      item.hasChildren && Open(item.children, 0, true, path) && LeadsBelow(item.children[path[0]], path[1..])
  {
    var met :| Down(item, path, met) && HasFields(End(met));
    if path != [] {
      DownStep(item, path, met);
      assert End(met[1..]) == End(met);
    }
  }

  lemma {:induction false} TraverseList(course: string, items: seq<Item>, first: nat, publishedOnly: bool,
                                        above: seq<int>)
    requires first <= |items|
    ensures ListTraversed(course, items, first, publishedOnly, above,
                          EntriesOf(course, items[first..], above, publishedOnly),
                          PathsFrom(items, first, publishedOnly))
    decreases items, |items| - first
  {
    if first < |items| {
      var item, open := items[first], !publishedOnly || items[first].published;
      var own, mine := if open then Entries(course, item, above) else [],
                       if open then Below(item) else [];
      if open {
        TraverseItem(course, item, above);
      }
      TraverseList(course, items, first + 1, publishedOnly, above);
      assert items[first..][0] == item && items[first..][1..] == items[first + 1..];
      hide Entries, Below, FoundBelow, LeadsBelow, ItemTraversed, ListTraversed;
      JoinTraversed(course, items, first, publishedOnly, above, own, mine,
                    EntriesOf(course, items[first + 1..], above, publishedOnly),
                    PathsFrom(items, first + 1, publishedOnly));
    }
  }

  /** The first item's traversal, followed by that of the other items. */
  lemma JoinTraversed(course: string, items: seq<Item>, first: nat, publishedOnly: bool, above: seq<int>,
                      own: seq<Entry>, mine: seq<seq<nat>>, rest: seq<Entry>, others: seq<seq<nat>>)
    requires first < |items|
    requires if publishedOnly && !items[first].published then own == [] && mine == []
             else ItemTraversed(course, items[first], above, own, mine)
    requires ListTraversed(course, items, first + 1, publishedOnly, above, rest, others)
    ensures ListTraversed(course, items, first, publishedOnly, above, own + rest, Prefixed(first, mine) + others)
  {
    hide FoundBelow, LeadsBelow, Sorted;
    var entries, paths := own + rest, Prefixed(first, mine) + others;
    forall k | 0 <= k < |paths|
      ensures Open(items, first, publishedOnly, paths[k])
      ensures FoundBelow(course, items[paths[k][0]], above, paths[k][1..], entries[k])
    {
      if k < |mine| {
        assert FoundBelow(course, items[first], above, mine[k], own[k]);
        FirstFound(course, items, first, publishedOnly, above, mine[k], own[k]);
      } else {
        assert Open(items, first + 1, publishedOnly, others[k - |mine|]);
      }
    }
    forall path | Open(items, first, publishedOnly, path) && LeadsBelow(items[path[0]], path[1..])
      ensures path in paths
    {
      if path[0] == first {
        var k :| 0 <= k < |mine| && mine[k] == path[1..];
        assert paths[k] == [first] + path[1..] == path;
      } else {
        assert Open(items, first + 1, publishedOnly, path);
      }
    }
    assert forall k :: 0 <= k < |others| ==> Open(items, first + 1, publishedOnly, others[k]);
    assert Sorted(mine) by {
      if mine == [] { EmptySorted(); }
    }
    JoinSorted(items, first, publishedOnly, mine, others);
  }

  lemma EmptySorted()
    ensures Sorted([])
  {
  }

  lemma FirstFound(course: string, items: seq<Item>, first: nat, publishedOnly: bool, above: seq<int>, path: seq<nat>,
                   x: Entry)
    requires first < |items| && (publishedOnly ==> items[first].published)
    requires FoundBelow(course, items[first], above, path, x)
    ensures Open(items, first, publishedOnly, [first] + path)
    ensures FoundBelow(course, items[first], above, ([first] + path)[1..], x)
  {
    assert ([first] + path)[1..] == path;
  }

  lemma JoinSorted(items: seq<Item>, first: nat, publishedOnly: bool, mine: seq<seq<nat>>, others: seq<seq<nat>>)
    requires Sorted(mine) && Sorted(others)
    requires forall k :: 0 <= k < |others| ==> Open(items, first + 1, publishedOnly, others[k])
    ensures Sorted(Prefixed(first, mine) + others)
  {
    var paths := Prefixed(first, mine) + others;
    forall j, k | 0 <= j < k < |paths|
      ensures Precedes(paths[j], paths[k])
    {
      if k < |mine| {
        assert Precedes(mine[j], mine[k]) && paths[j][1..] == mine[j] && paths[k][1..] == mine[k];
      } else if j < |mine| {
        assert Open(items, first + 1, publishedOnly, others[k - |mine|]);
      } else {
        assert Precedes(others[j - |mine|], others[k - |mine|]);
      }
    }
  }

  // ---------- The documents ----------

  lemma FoundAlong(course: string, top: seq<Item>, path: seq<nat>, x: Entry)
    requires Open(top, 0, false, path) && FoundBelow(course, top[path[0]], [], path[1..], x)
    ensures SentAt(course, top, path, x)
  {
    var met: seq<Item> :| Down(top[path[0]], path[1..], met) && EntryUnder(course, [], met, x);
    AlongIsDown(top, path, met);
    forall i | 0 <= i < |x.above|
      ensures x.above[i] == met[i].subtreeEditedOn
    {
      assert StampAt(x.above, 0 + i, met[i]);
    }
    assert Along(top, path, met) && EntryFor(course, met, x);
  }

  /** A full run sends one document for each item with fields that a path leads to, each path once and children
      before their parent, with the times of the items above it. */
  lemma {:induction false} DocumentsByPath(course: string, top: seq<Item>)
    ensures exists paths :: Traversal(course, top, Documents(course, top), paths)
  {
    var entries, paths := Documents(course, top), PathsFrom(top, 0, false);
    TraverseList(course, top, 0, false, []);
    assert top[0..] == top;
    hide Documents, PathsFrom, Along, FoundBelow, SentAt;
    forall k | 0 <= k < |paths|
      ensures SentAt(course, top, paths[k], entries[k])
    {
      FoundAlong(course, top, paths[k], entries[k]);
    }
    forall path, met | Along(top, path, met) && HasFields(End(met))
      ensures path in paths
    {
      AlongLeads(top, path, met);
    }
    assert Traversal(course, top, entries, paths);
  }

  lemma AlongLeads(top: seq<Item>, path: seq<nat>, met: seq<Item>)
    requires Along(top, path, met) && HasFields(End(met))
    ensures Open(top, 0, false, path) && LeadsBelow(top[path[0]], path[1..])
  {
    AlongIsDown(top, path, met);
  }

  /** A document is one of the structure if and only if a path leads to its item and the item has fields. */
  lemma {:induction false} DocumentIff(course: string, top: seq<Item>, x: Entry)
    ensures x in Documents(course, top)
        <==> exists path :: SentAt(course, top, path, x)
  {
    DocumentsByPath(course, top);
    var entries := Documents(course, top);
    var paths :| Traversal(course, top, entries, paths);
    hide Documents, Along, SentAt, HasFields, Precedes;
    if x in entries {
      var k :| 0 <= k < |entries| && entries[k] == x;
      assert SentAt(course, top, paths[k], x);
    }
    if path :| SentAt(course, top, path, x) {
      var met := SentMeets(course, top, path, x);
      var k :| 0 <= k < |paths| && paths[k] == path;
      assert SentAt(course, top, path, entries[k]);
      SentOnce(course, top, path, x, entries[k]);
    }
  }

  lemma SentMeets(course: string, top: seq<Item>, path: seq<nat>, x: Entry) returns (met: seq<Item>)
    requires SentAt(course, top, path, x)
    ensures Along(top, path, met) && HasFields(End(met))
  {
    met :| Along(top, path, met) && EntryFor(course, met, x);
  }

  lemma SentOnce(course: string, top: seq<Item>, path: seq<nat>, x: Entry, y: Entry)
    requires SentAt(course, top, path, x) && SentAt(course, top, path, y)
    ensures x == y
  {
    var met :| Along(top, path, met) && EntryFor(course, met, x);
    var other :| Along(top, path, other) && EntryFor(course, other, y);
    AlongUnique(top, path, met, other);
    assert x.above == y.above;
  }

  /** A path meets the same items whenever it is followed. */
  lemma {:induction false} AlongUnique(items: seq<Item>, path: seq<nat>, met: seq<Item>, other: seq<Item>)
    requires Along(items, path, met) && Along(items, path, other)
    ensures met == other
  {
    var n := 1;
    while n < |path|
      invariant 1 <= n <= |path|
      invariant forall k :: 0 <= k < n ==> met[k] == other[k]
    {
      assert StepsDown(met[n - 1], path[n], met[n]) && StepsDown(other[n - 1], path[n], other[n]);
      n := n + 1;
    }
  }

  // ---------- The ids that stay ----------

  /** The path leads to an item with that id, which has fields or may have children. */
  ghost predicate KeptAt(items: seq<Item>, path: seq<nat>, met: seq<Item>, id: Id) {
    Along(items, path, met) && End(met).id == id && (HasFields(End(met)) || End(met).hasChildren)
  }

  ghost predicate KeptBelow(item: Item, id: Id) {
    exists path, met ::
      Down(item, path, met) && End(met).id == id && (HasFields(End(met)) || End(met).hasChildren)
  }

  lemma {:induction false} KeepIff(item: Item, id: Id)
    ensures id in Keep(item) <==> KeptBelow(item, id)
    decreases item, 1
  {
    if item.hasChildren {
      KeepOfIff(item.children, true, id);
    }
    KeptStep(item, id);
    assert Ignored(item) <==> !HasFields(item) && !item.hasChildren;
    hide KeepOf, KeptBelow, HasFields, Ignored;
  }

  lemma KeptStep(item: Item, id: Id)
    ensures KeptBelow(item, id) <==>
      || (item.id == id && (HasFields(item) || item.hasChildren))
      || (item.hasChildren
          && exists i :: 0 <= i < |item.children| && item.children[i].published && KeptBelow(item.children[i], id))
  {
    hide HasFields;
    if item.id == id && (HasFields(item) || item.hasChildren) {
      assert Down(item, [], [item]) && End([item]) == item;
    }
    if item.hasChildren {
      forall i: nat | i < |item.children| && item.children[i].published && KeptBelow(item.children[i], id)
        ensures KeptBelow(item, id)
      {
        KeptThroughChild(item, i, id);
      }
    }
    if KeptBelow(item, id) {
      var path, met :| Down(item, path, met) && End(met).id == id && (HasFields(End(met)) || End(met).hasChildren);
      if path != [] {
        DownStep(item, path, met);
        assert End(met[1..]) == End(met);
        assert KeptBelow(item.children[path[0]], id);
      }
    }
  }

  lemma KeptThroughChild(item: Item, i: nat, id: Id)
    requires item.hasChildren && i < |item.children| && item.children[i].published && KeptBelow(item.children[i], id)
    ensures KeptBelow(item, id)
  {
    hide HasFields;
    var path, met :| Down(item.children[i], path, met) && End(met).id == id
                     && (HasFields(End(met)) || End(met).hasChildren);
    assert ([item] + met)[1..] == met && ([i] + path)[1..] == path && End([item] + met) == End(met);
    DownStep(item, [i] + path, [item] + met);
  }

  lemma {:induction false} KeepOfIff(items: seq<Item>, publishedOnly: bool, id: Id)
    ensures id in KeepOf(items, publishedOnly)
        <==> exists i :: 0 <= i < |items| && (publishedOnly ==> items[i].published) && KeptBelow(items[i], id)
    decreases items, 0
  {
    if items != [] {
      KeepIff(items[0], id);
      KeepOfIff(items[1..], publishedOnly, id);
      hide Keep, KeptBelow;
      assert forall i :: 0 < i < |items| ==> items[i] == items[1..][i - 1];
    }
  }

  /** An id stays in the index if and only if a path leads to an item of that id which has fields or may have
      children; whether it was sent does not matter. */
  lemma {:induction false} KeptIff(top: seq<Item>, id: Id)
    ensures id in KeepOf(top, false) <==> exists path, met :: KeptAt(top, path, met, id)
  {
    KeepOfIff(top, false, id);
    hide KeepOf;
    if i :| 0 <= i < |top| && KeptBelow(top[i], id) {
      var path, met :| Down(top[i], path, met) && End(met).id == id && (HasFields(End(met)) || End(met).hasChildren);
      assert ([i] + path)[1..] == path;
      AlongIsDown(top, [i] + path, met);
      assert KeptAt(top, [i] + path, met, id);
    }
    if path, met :| KeptAt(top, path, met, id) {
      AlongIsDown(top, path, met);
      assert KeptBelow(top[path[0]], id);
    }
  }

  // ---------- A run ----------

  /** None of the items above it was changed longer before the trigger than the look-back period. */
  predicate ChangedRecently(x: Entry, triggeredAt: Option<int>, reindexAge: int) {
    triggeredAt.None? || forall a :: a in x.above ==> triggeredAt.value - a <= reindexAge
  }

  /** The documents are those of the recently changed entries from a position on, each entry's once and in order. */
  ghost predicate Picked(entries: seq<Entry>, first: nat, triggeredAt: Option<int>, reindexAge: int, docs: seq<Doc>,
                         at: seq<nat>) {
    DocsAt(entries, first, docs, at) && Increasing(at) && RecentAt(entries, first, triggeredAt, reindexAge, at)
  }

  ghost predicate DocsAt(entries: seq<Entry>, first: nat, docs: seq<Doc>, at: seq<nat>) {
    |at| == |docs| && forall k :: 0 <= k < |at| ==> first <= at[k] < |entries| && docs[k] == entries[at[k]].doc
  }

  ghost predicate Increasing(at: seq<nat>) {
    forall j, k :: 0 <= j < k < |at| ==> at[j] < at[k]
  }

  ghost predicate RecentAt(entries: seq<Entry>, first: nat, triggeredAt: Option<int>, reindexAge: int, at: seq<nat>) {
    forall i: nat | first <= i < |entries| :: i in at <==> ChangedRecently(entries[i], triggeredAt, reindexAge)
  }

  /** The positions, from one on, of the recently changed entries. */
  function RecentFrom(entries: seq<Entry>, first: nat, triggeredAt: Option<int>, reindexAge: int): seq<nat>
    decreases |entries| - first
  {
    if first >= |entries| then []
    else
      (if ChangedRecently(entries[first], triggeredAt, reindexAge) then [first] else [])
      + RecentFrom(entries, first + 1, triggeredAt, reindexAge)
  }

  lemma {:induction false} RecentPicks(entries: seq<Entry>, first: nat, triggeredAt: Option<int>, reindexAge: int)
    requires first <= |entries|
    ensures Picked(entries, first, triggeredAt, reindexAge, Selected(entries[first..], triggeredAt, reindexAge),
                   RecentFrom(entries, first, triggeredAt, reindexAge))
    decreases |entries| - first
  {
    if first < |entries| {
      var x := entries[first];
      assert entries[first..][0] == x && entries[first..][1..] == entries[first + 1..];
      assert Recent(x, triggeredAt, reindexAge) == ChangedRecently(x, triggeredAt, reindexAge);
      hide Recent, ChangedRecently, Picked;
      RecentPicks(entries, first + 1, triggeredAt, reindexAge);
      PickHead(entries, first, triggeredAt, reindexAge, Selected(entries[first + 1..], triggeredAt, reindexAge),
               RecentFrom(entries, first + 1, triggeredAt, reindexAge));
    }
  }

  lemma PickHead(entries: seq<Entry>, first: nat, triggeredAt: Option<int>, reindexAge: int, docs: seq<Doc>,
                 at: seq<nat>)
    requires first < |entries| && Picked(entries, first + 1, triggeredAt, reindexAge, docs, at)
    ensures var recent := ChangedRecently(entries[first], triggeredAt, reindexAge);
      Picked(entries, first, triggeredAt, reindexAge, (if recent then [entries[first].doc] else []) + docs,
             (if recent then [first] else []) + at)
  {
    hide ChangedRecently, Increasing, RecentAt;
    HeadDocs(entries, first, docs, at);
    HeadRecent(entries, first, triggeredAt, reindexAge, at);
    hide DocsAt;
    if ChangedRecently(entries[first], triggeredAt, reindexAge) {
      assert Picked(entries, first, triggeredAt, reindexAge, [entries[first].doc] + docs, [first] + at);
    } else {
      assert [] + at == at && [] + docs == docs;
    }
  }

  lemma HeadDocs(entries: seq<Entry>, first: nat, docs: seq<Doc>, at: seq<nat>)
    requires first < |entries| && DocsAt(entries, first + 1, docs, at) && Increasing(at)
    ensures DocsAt(entries, first, docs, at) && DocsAt(entries, first, [entries[first].doc] + docs, [first] + at)
    ensures Increasing([first] + at)
  {
    var all, places := [entries[first].doc] + docs, [first] + at;
    forall k | 0 < k < |places|
      ensures first < places[k] < |entries| && all[k] == entries[places[k]].doc
    {
      assert places[k] == at[k - 1] && all[k] == docs[k - 1];
    }
  }

  lemma HeadRecent(entries: seq<Entry>, first: nat, triggeredAt: Option<int>, reindexAge: int, at: seq<nat>)
    requires first < |entries| && RecentAt(entries, first + 1, triggeredAt, reindexAge, at)
    requires forall k :: 0 <= k < |at| ==> first < at[k]
    ensures RecentAt(entries, first, triggeredAt, reindexAge,
                     if ChangedRecently(entries[first], triggeredAt, reindexAge) then [first] + at else at)
  {
    hide ChangedRecently;
    var places := [first] + at;
    assert first !in at && first in places;
    assert forall i: nat :: i != first ==> (i in places <==> i in at);
  }

  /** A run sends the documents whose ancestors all changed recently, in the order of a full run. */
  lemma {:induction false} SelectedPicks(entries: seq<Entry>, triggeredAt: Option<int>, reindexAge: int)
    ensures exists at :: Picked(entries, 0, triggeredAt, reindexAge, Selected(entries, triggeredAt, reindexAge), at)
  {
    assert entries[0..] == entries;
    RecentPicks(entries, 0, triggeredAt, reindexAge);
  }

  /** What the engine holds under an id after a run: the document the run sent; without one, what it held before,
      unless that is a document of the course and no path leads to an item that keeps it. */
  lemma {:induction false} RunAtId(engine: Engine, course: string, top: seq<Item>, triggeredAt: Option<int>,
                                   reindexAge: int, id: Id)
    requires Distinct(Documents(course, top))
    ensures var now := AfterRun(engine, course, top, triggeredAt, reindexAge);
      && (forall x :: x in Documents(course, top) && x.doc.id == id && ChangedRecently(x, triggeredAt, reindexAge) ==>
            id in now && now[id] == x.doc)
      && ((forall x :: x in Documents(course, top) && x.doc.id == id ==> !ChangedRecently(x, triggeredAt, reindexAge))
          ==>
            && (id in now <==>
                 id in engine && (engine[id].course == course ==> exists path, met :: KeptAt(top, path, met, id)))
            && (id in now ==> now[id] == engine[id]))
  {
    var docs := Selected(Documents(course, top), triggeredAt, reindexAge);
    KeptIff(top, id);
    UpsertLookup(engine, docs, id);
    forall x | x in Documents(course, top)
      ensures Recent(x, triggeredAt, reindexAge) <==> ChangedRecently(x, triggeredAt, reindexAge)
    {
    }
    forall d | d in docs && d.id == id
      ensures exists x :: x in Documents(course, top) && x.doc == d && ChangedRecently(x, triggeredAt, reindexAge)
    {
      SelectedMember(Documents(course, top), triggeredAt, reindexAge, d);
    }
    forall x | x in Documents(course, top) && x.doc.id == id && ChangedRecently(x, triggeredAt, reindexAge)
      ensures x.doc in docs
    {
      SelectedMember(Documents(course, top), triggeredAt, reindexAge, x.doc);
    }
    forall x | x in Documents(course, top) && x.doc.id == id
      ensures id in KeepOf(top, false) && x.doc.course == course
    {
      EntriesAreKept(course, top, [], false, x);
    }
  }
}
