/** Changes of the course tree and the stamps they leave: every operation sets subtree_edited_on on the items it
    changes and on their ancestors, which is what the indexer's age test relies on
    (cms/djangoapps/contentstore/courseware_index.py:212-214). */
module CourseChanges {
  import opened Text
  import opened CourseIndex
  import opened IndexSchedule

  /** Insert and Delete act on a list of children, the other operations on an item. */
  datatype Operation =
    | Edit(dictionary: Option<Fields>)
    | Publish
    | Unpublish
    | Insert(index: nat, item: Item)
    | Delete(index: nat)

  /** The item with its whole subtree stamped with the time and, if asked for, published. */
  function Stamped(item: Item, time: int, publish: bool): Item
    decreases item, 1
  {
    item.(published := publish || item.published, subtreeEditedOn := time,
          children := StampedEach(item.children, time, publish))
  }

  function StampedEach(items: seq<Item>, time: int, publish: bool): seq<Item>
    decreases items, 0
  {
    if items == [] then [] else [Stamped(items[0], time, publish)] + StampedEach(items[1..], time, publish)
  }

  /** An operation on one item. */
  function ApplyTo(item: Item, op: Operation, time: int): Item
    requires op.Edit? || op.Publish? || op.Unpublish?
  {
    match op
    case Edit(dictionary) => item.(dictionary := dictionary, subtreeEditedOn := time)
    case Publish => Stamped(item, time, true)
    case Unpublish => item.(published := false, subtreeEditedOn := time)
  }

  /** The items after an operation below them: `path` leads to the item it acts on, or to the item whose list of
      children it acts on, and each item on the way is stamped. An operation on what is not there changes nothing. */
  function Apply(items: seq<Item>, path: seq<nat>, op: Operation, time: int): seq<Item>
    decreases |path|
  {
    if path == [] then
      if op.Insert? && op.index <= |items| then items[..op.index] + [Stamped(op.item, time, false)] + items[op.index..]
      else if op.Delete? && op.index < |items| then items[..op.index] + items[op.index + 1..]
      else items
    else if path[0] >= |items| then items
    else
      var item := items[path[0]];
      if |path| == 1 && !op.Insert? && !op.Delete? then items[path[0] := ApplyTo(item, op, time)]
      else items[path[0] := item.(children := Apply(item.children, path[1..], op, time), subtreeEditedOn := time)]
  }

  // ---------- What an operation leaves ----------

  /** The item a path of positions leads to. */
  function ItemAt(items: seq<Item>, path: seq<nat>): Option<Item> {
    if path == [] || path[0] >= |items| then None
    else if |path| == 1 then Some(items[path[0]])
    else ItemAt(items[path[0]].children, path[1..])
  }

  /** The list a path leads to: the items themselves, or the children of the item it leads to. */
  function ListAt(items: seq<Item>, path: seq<nat>): Option<seq<Item>> {
    if path == [] then Some(items)
    else if path[0] >= |items| then None
    else ListAt(items[path[0]].children, path[1..])
  }

  /** Stamping reaches every item below, and changes nothing but the stamps and, if asked for, the publication. */
  lemma {:induction false} StampedAt(items: seq<Item>, path: seq<nat>, time: int, publish: bool)
    ensures var before, after := ItemAt(items, path), ItemAt(StampedEach(items, time, publish), path);
      && (before.Some? <==> after.Some?)
      && (before.Some? ==>
            && |after.value.children| == |before.value.children|
            && after.value == before.value.(published := publish || before.value.published, subtreeEditedOn := time,
                                            children := after.value.children))
    decreases |path|
  {
    if path != [] {
      StampedPosition(items, path[0], time, publish);
      if path[0] < |items| {
        if |path| == 1 {
          StampedPosition(items[path[0]].children, 0, time, publish);
        } else {
          StampedAt(items[path[0]].children, path[1..], time, publish);
        }
      }
    }
  }

  lemma {:induction false} StampedPosition(items: seq<Item>, position: nat, time: int, publish: bool)
    ensures |StampedEach(items, time, publish)| == |items|
    ensures position < |items| ==>
      StampedEach(items, time, publish)[position] == Stamped(items[position], time, publish)
  {
    if items != [] {
      StampedPosition(items[1..], if position == 0 then 0 else position - 1, time, publish);
    }
  }

  /** What is at the path afterwards: the edited item, the published one with all that is below it, or the one that
      is unpublished alone. */
  lemma {:induction false} ItemChanged(items: seq<Item>, path: seq<nat>, op: Operation, time: int)
    requires ItemAt(items, path).Some? && !op.Insert? && !op.Delete?
    ensures var before, now := ItemAt(items, path).value, ItemAt(Apply(items, path, op, time), path);
      && now.Some?
      && (op.Edit? ==> now.value == before.(dictionary := op.dictionary, subtreeEditedOn := time))
      && (op.Unpublish? ==> now.value == before.(published := false, subtreeEditedOn := time))
      && (op.Publish? ==>
            && now.value == before.(published := true, subtreeEditedOn := time, children := now.value.children)
            && forall below :: PublishedBelow(before, now.value, below, time))
    decreases |path|
  {
    if |path| == 1 {
      if op.Publish? {
        forall below ensures PublishedBelow(items[path[0]], Stamped(items[path[0]], time, true), below, time) {
          StampedAt(items[path[0]].children, below, time, true);
        }
      }
    } else {
      ItemChanged(items[path[0]].children, path[1..], op, time);
    }
  }

  predicate PublishedBelow(before: Item, now: Item, path: seq<nat>, time: int) {
    var was, after := ItemAt(before.children, path), ItemAt(now.children, path);
    && (was.Some? <==> after.Some?)
    && (was.Some? ==>
          after.value == was.value.(published := true, subtreeEditedOn := time, children := after.value.children))
  }

  /** The list at the path has the new item before the index, stamped throughout, or is without the one at it. */
  lemma {:induction false} ListChanged(items: seq<Item>, path: seq<nat>, op: Operation, time: int)
    requires ListAt(items, path).Some?
    requires (op.Insert? && op.index <= |ListAt(items, path).value|)
             || (op.Delete? && op.index < |ListAt(items, path).value|)
    ensures var before, now := ListAt(items, path).value, ListAt(Apply(items, path, op, time), path);
      && now.Some?
      && (op.Delete? ==> now.value == before[..op.index] + before[op.index + 1..])
      && (op.Insert? ==>
            && |now.value| == |before| + 1
            && now.value[..op.index] == before[..op.index] && now.value[op.index + 1..] == before[op.index..]
            && now.value[op.index] == op.item.(subtreeEditedOn := time, children := now.value[op.index].children)
            && forall below :: StampedBelow(op.item, now.value[op.index], below, time))
    decreases |path|
  {
    if path == [] {
      if op.Insert? {
        forall below ensures StampedBelow(op.item, Stamped(op.item, time, false), below, time) {
          StampedAt(op.item.children, below, time, false);
        }
      }
    } else {
      ListChanged(items[path[0]].children, path[1..], op, time);
    }
  }

  predicate StampedBelow(before: Item, now: Item, path: seq<nat>, time: int) {
    var was, after := ItemAt(before.children, path), ItemAt(now.children, path);
    && (was.Some? <==> after.Some?)
    && (was.Some? ==> after.value == was.value.(subtreeEditedOn := time, children := after.value.children))
  }

  /** An item on the way to the changed place gets a stamp and nothing else; an item beside the way stays. */
  lemma {:induction false} OthersStay(items: seq<Item>, path: seq<nat>, op: Operation, time: int, other: seq<nat>)
    requires other != [] && ItemAt(items, other).Some?
    ensures var before, now := ItemAt(items, other).value, ItemAt(Apply(items, path, op, time), other);
      && (other < path ==> now.Some? && now.value == before.(subtreeEditedOn := time, children := now.value.children))
      && (Apart(path, other) ==> now == Some(before))
    decreases |path|
  {
    if path != [] && path[0] == other[0] && |path| > 1 && |other| > 1 {
      OthersStay(items[path[0]].children, path[1..], op, time, other[1..]);
      assert other < path ==> other[1..] < path[1..] by {
        if other < path {
          assert forall k :: 0 <= k < |other| - 1 ==> other[1..][k] == path[1..][k] by {
            assert forall k :: 0 <= k < |other| ==> other[k] == path[k];
          }
        }
      }
      if Apart(path, other) {
        var k :| 0 <= k < |path| && k < |other| && path[k] != other[k];
        assert path[1..][k - 1] != other[1..][k - 1];
      }
    }
  }

  /** Neither path begins with the other. */
  predicate Apart(p: seq<nat>, q: seq<nat>) {
    exists k :: 0 <= k < |p| && k < |q| && p[k] != q[k]
  }

  // ---------- Stamps ----------

  /** Each new stamp is at or after the time, or no older than one of the stamps before. */
  predicate Newer(above: seq<int>, stamped: seq<int>, time: int) {
    forall a :: a in stamped ==> time <= a || exists b :: b in above && b <= a
  }

  lemma {:induction false} NewerBelow(above: seq<int>, stamped: seq<int>, t: int, time: int)
    requires Newer(above, stamped, time)
    ensures Newer(above + [t], stamped + [t], time)
  {
    forall a | a in stamped + [t] && a < time
      ensures exists b :: b in above + [t] && b <= a
    {
      if a in stamped {
        var b :| b in above && b <= a;
        assert b in above + [t];
      } else {
        assert t in above + [t] && t <= a;
      }
    }
  }

  lemma {:induction false} EntriesOfMember(course: string, items: seq<Item>, above: seq<int>, publishedOnly: bool,
                                           x: Entry)
    ensures x in EntriesOf(course, items, above, publishedOnly)
        <==> exists j :: 0 <= j < |items| && (publishedOnly ==> items[j].published)
                         && x in Entries(course, items[j], above)
  {
    if items != [] {
      EntriesOfMember(course, items[1..], above, publishedOnly, x);
      assert forall j :: 0 < j < |items| ==> items[j] == items[1..][j - 1];
    }
  }

  /** Below an unchanged item every document is carried over. */
  lemma {:induction false} UnchangedItem(course: string, item: Item, above: seq<int>, stamped: seq<int>, time: int,
                                         x: Entry)
    requires Newer(above, stamped, time) && x in Entries(course, item, stamped)
    ensures exists y :: y in Entries(course, item, above) && Carried(y, x, time)
    decreases item, 1
  {
    var t := item.subtreeEditedOn;
    if item.hasChildren && x in EntriesOf(course, item.children, stamped + [t], true) {
      NewerBelow(above, stamped, t, time);
      UnchangedItems(course, item.children, above + [t], stamped + [t], true, time, x);
      var y :| y in EntriesOf(course, item.children, above + [t], true) && Carried(y, x, time);
      assert y in Entries(course, item, above);
    } else {
      var y := Entry(x.doc, above);
      assert y in Entries(course, item, above) && Carried(y, x, time);
    }
  }

  lemma {:induction false} UnchangedItems(course: string, items: seq<Item>, above: seq<int>, stamped: seq<int>,
                                          publishedOnly: bool, time: int, x: Entry)
    requires Newer(above, stamped, time) && x in EntriesOf(course, items, stamped, publishedOnly)
    ensures exists y :: y in EntriesOf(course, items, above, publishedOnly) && Carried(y, x, time)
    decreases items, 0
  {
    if x in EntriesOf(course, items[1..], stamped, publishedOnly) {
      UnchangedItems(course, items[1..], above, stamped, publishedOnly, time, x);
      var y :| y in EntriesOf(course, items[1..], above, publishedOnly) && Carried(y, x, time);
      assert y in EntriesOf(course, items, above, publishedOnly);
    } else {
      UnchangedItem(course, items[0], above, stamped, time, x);
      var y :| y in Entries(course, items[0], above) && Carried(y, x, time);
      assert y in EntriesOf(course, items, above, publishedOnly);
    }
  }

  /** Below a stamped item every document is touched. */
  lemma {:induction false} StampedItem(course: string, item: Item, stamps: seq<int>, time: int, publish: bool, x: Entry)
    requires (forall a :: a in stamps ==> time <= a) && x in Entries(course, Stamped(item, time, publish), stamps)
    ensures Touched(x, time)
    decreases item, 1
  {
    if item.hasChildren && x in EntriesOf(course, StampedEach(item.children, time, publish), stamps + [time], true) {
      StampedItems(course, item.children, stamps + [time], time, publish, x);
    }
  }

  lemma {:induction false} StampedItems(course: string, items: seq<Item>, stamps: seq<int>, time: int, publish: bool,
                                        x: Entry)
    requires (forall a :: a in stamps ==> time <= a)
    requires x in EntriesOf(course, StampedEach(items, time, publish), stamps, true)
    ensures Touched(x, time)
    decreases items, 0
  {
    var all := StampedEach(items, time, publish);
    assert all[0] == Stamped(items[0], time, publish) && all[1..] == StampedEach(items[1..], time, publish);
    if x in EntriesOf(course, all[1..], stamps, true) {
      StampedItems(course, items[1..], stamps, time, publish, x);
    } else {
      StampedItem(course, items[0], stamps, time, publish, x);
    }
  }

  /** A document of the changed list of items is touched, or carried over from the old list. */
  ghost predicate Explained(course: string, items: seq<Item>, above: seq<int>, publishedOnly: bool, time: int,
                            x: Entry) {
    Touched(x, time) || exists y :: y in EntriesOf(course, items, above, publishedOnly) && Carried(y, x, time)
  }

  /** An item that stays in the list explains its documents. */
  lemma {:induction false} StayingItem(course: string, items: seq<Item>, j: nat, above: seq<int>, stamped: seq<int>,
                                       publishedOnly: bool, time: int, x: Entry)
    requires j < |items| && (publishedOnly ==> items[j].published)
    requires Newer(above, stamped, time) && x in Entries(course, items[j], stamped)
    ensures Explained(course, items, above, publishedOnly, time, x)
  {
    UnchangedItem(course, items[j], above, stamped, time, x);
    var y :| y in Entries(course, items[j], above) && Carried(y, x, time);
    EntriesOfMember(course, items, above, publishedOnly, y);
  }

  /** What explains a document among an item's children explains it in the list that holds the item. */
  lemma {:induction false} ExplainedBelow(course: string, items: seq<Item>, j: nat, above: seq<int>,
                                          publishedOnly: bool, time: int, x: Entry)
    requires j < |items| && items[j].hasChildren && (publishedOnly ==> items[j].published)
    requires Explained(course, items[j].children, above + [items[j].subtreeEditedOn], true, time, x)
    ensures Explained(course, items, above, publishedOnly, time, x)
  {
    if !Touched(x, time) {
      var children := EntriesOf(course, items[j].children, above + [items[j].subtreeEditedOn], true);
      var y :| y in children && Carried(y, x, time);
      assert y in Entries(course, items[j], above);
      EntriesOfMember(course, items, above, publishedOnly, y);
    }
  }

  /** Insertion into and deletion from the list itself. */
  lemma {:induction false} AppliedToList(course: string, items: seq<Item>, op: Operation, j: nat, above: seq<int>,
                                         stamped: seq<int>, publishedOnly: bool, time: int, x: Entry)
    requires forall a :: a in stamped ==> time <= a
    requires var changed := Apply(items, [], op, time);
      j < |changed| && (publishedOnly ==> changed[j].published) && x in Entries(course, changed[j], stamped)
    ensures Explained(course, items, above, publishedOnly, time, x)
  {
    hide Entries;
    if op.Insert? && op.index <= |items| && j == op.index {
      StampedItem(course, op.item, stamped, time, false, x);
    } else {
      var k := if op.Insert? && op.index <= |items| && op.index < j then j - 1
                   else if op.Delete? && op.index < |items| && op.index <= j then j + 1 else j;
      StayingItem(course, items, k, above, stamped, publishedOnly, time, x);
    }
  }

  lemma {:induction false} AppliedToItem(course: string, items: seq<Item>, i: nat, op: Operation, above: seq<int>,
                                         stamped: seq<int>, publishedOnly: bool, time: int, x: Entry)
    requires i < |items| && (op.Edit? || op.Publish? || op.Unpublish?) && forall a :: a in stamped ==> time <= a
    requires publishedOnly ==> ApplyTo(items[i], op, time).published
    requires x in Entries(course, ApplyTo(items[i], op, time), stamped)
    ensures Explained(course, items, above, publishedOnly, time, x)
  {
    var item := items[i];
    if op.Publish? {
      StampedItem(course, item, stamped, time, true, x);
    } else if item.hasChildren && x in EntriesOf(course, item.children, stamped + [time], true) {
      var t := item.subtreeEditedOn;
      UnchangedItems(course, item.children, above + [t], stamped + [time], true, time, x);
      ExplainedBelow(course, items, i, above, publishedOnly, time, x);
    }
  }

  /** Every operation, anywhere in the tree, stamps what the index needs. */
  lemma {:induction false} ApplyExplained(course: string, items: seq<Item>, path: seq<nat>, op: Operation,
                                          above: seq<int>, stamped: seq<int>, publishedOnly: bool, time: int, x: Entry)
    requires forall a :: a in stamped ==> time <= a
    requires x in EntriesOf(course, Apply(items, path, op, time), stamped, publishedOnly)
    ensures Explained(course, items, above, publishedOnly, time, x)
    decreases |path|
  {
    var changed := Apply(items, path, op, time);
    EntriesOfMember(course, changed, stamped, publishedOnly, x);
    var j: nat :| j < |changed| && (publishedOnly ==> changed[j].published)
                  && x in Entries(course, changed[j], stamped);
    if path == [] {
      AppliedToList(course, items, op, j, above, stamped, publishedOnly, time, x);
    } else if j >= |items| || changed[j] == items[j] {
      StayingItem(course, items, j, above, stamped, publishedOnly, time, x);
    } else if |path| == 1 && !op.Insert? && !op.Delete? {
      AppliedToItem(course, items, j, op, above, stamped, publishedOnly, time, x);
    } else {
      var item := items[j];
      if item.hasChildren && x in EntriesOf(course, changed[j].children, stamped + [time], true) {
        ApplyExplained(course, item.children, path[1..], op, above + [item.subtreeEditedOn], stamped + [time], true,
                       time, x);
        ExplainedBelow(course, items, j, above, publishedOnly, time, x);
      }
    }
  }

  /** Edits, publications, insertions and deletions are changes that stamp what they must. */
  lemma {:induction false} OperationsStamp(course: string, top: seq<Item>, path: seq<nat>, op: Operation, time: int)
    ensures Stamps(Documents(course, top), Documents(course, Apply(top, path, op, time)), time)
  {
    forall x | x in Documents(course, Apply(top, path, op, time))
      ensures Explained(course, top, [], false, time, x)
    {
      ApplyExplained(course, top, path, op, [], [], false, time, x);
    }
  }

  /** A schedule whose changes are such operations, at times that do not go back, is legal. */
  lemma {:induction false} OperationSchedulesAreLegal(c: Settings, s: System, events: seq<Event>)
    requires Distinct(Documents(c.course, s.top))
    requires forall i :: 0 <= i < |events| && events[i].Change? ==>
      && Distinct(Documents(c.course, events[i].top))
      && exists path, op :: events[i].top == Apply(After(c, s, events, i).top, path, op, events[i].at)
    requires forall i, j :: 0 <= i < j < |events| && events[i].Change? && events[j].Change? ==>
      events[i].at <= events[j].at
    ensures Legal(c, s, events)
  {
    forall i | 0 <= i < |events| && events[i].Change?
      ensures Stamps(Documents(c.course, After(c, s, events, i).top), Documents(c.course, events[i].top), events[i].at)
    {
      var path, op :| events[i].top == Apply(After(c, s, events, i).top, path, op, events[i].at);
      OperationsStamp(c.course, After(c, s, events, i).top, path, op, events[i].at);
    }
  }

  // ---------- A trigger that comes too late ----------

  /** A chapter without a document, with one indexed problem. */
  function LateTop(text: string, time: int): seq<Item> {
    [Item("c", None, true, [Item("p", Some(map["text" := text]), false, [], true, time)], true, time)]
  }

  function LateDoc(course: string, text: string): Doc {
    Doc(course, "p", map["text" := text])
  }

  function LateSystem(course: string): System {
    System(LateTop("old", 0), map["p" := LateDoc(course, "old")], multiset{})
  }

  /** The problem is edited at 100; the task is triggered at 161 and run. */
  function LateEvents(): seq<Event> {
    [Change(LateTop("new", 100), 100), Trigger(161), RunTask(161)]
  }

  lemma {:induction false} LateDocuments(course: string, text: string, time: int)
    ensures Documents(course, LateTop(text, time)) == [Entry(LateDoc(course, text), [time])]
    ensures "p" in KeepOf(LateTop(text, time), false)
  {
    var top := LateTop(text, time);
    var item := top[0];
    var child := item.children[0];
    var e := Entry(LateDoc(course, text), [time]);
    assert "text" in child.dictionary.value;
    assert Entries(course, child, [time]) == [e];
    assert item.children[1..] == [] && top[1..] == [] && [] + [time] == [time];
    assert EntriesOf(course, item.children, [time], true) == [e] + [] == [e];
    assert Entries(course, item, []) == [e] + [] == [e];
    assert Documents(course, top) == [e] + EntriesOf(course, top[1..], [], false);
    assert "p" in Keep(child) && Keep(child) <= KeepOf(item.children, true) <= Keep(item) <= KeepOf(top, false);
  }

  lemma {:induction false} LateStart(course: string)
    ensures Agrees(LateSystem(course).engine, course, LateSystem(course).top)
  {
    LateDocuments(course, "old", 0);
  }

  lemma {:induction false} LateEnd(course: string)
    ensures var now := After(Settings(course, 60), LateSystem(course), LateEvents(), 3);
      now.pending == multiset{} && !Agrees(now.engine, course, now.top)
  {
    var c, s, events := Settings(course, 60), LateSystem(course), LateEvents();
    var edited, x := LateTop("new", 100), Entry(LateDoc(course, "new"), [100]);
    LateDocuments(course, "new", 100);
    assert x in Documents(course, edited) && x.above[0] == 100;
    assert 100 in x.above && TooOld(100, Some(161), 60);
    RunRefreshesIffRecent(s.engine, course, edited, Some(161), 60, x);
    assert !Has(s.engine, x.doc) by {
      assert map["text" := "old"]["text"] != map["text" := "new"]["text"];
    }
    hide AfterRun, Documents;
    assert After(c, s, events, 1) == System(edited, s.engine, multiset{});
    assert After(c, s, events, 2) == System(edited, s.engine, multiset{161});
    assert After(c, s, events, 3).engine == AfterRun(s.engine, course, edited, Some(161), 60);
  }

  lemma {:induction false} LateLegal(course: string)
    ensures Legal(Settings(course, 60), LateSystem(course), LateEvents())
  {
    LateDocuments(course, "old", 0);
    LateDocuments(course, "new", 100);
    hide Documents;
    assert After(Settings(course, 60), LateSystem(course), LateEvents(), 0) == LateSystem(course);
  }

  /** A trigger that comes later than the look-back period allows is not enough: from an agreeing start and through
      a legal schedule with no task left pending, the edited problem keeps its old document. */
  lemma {:induction false} LateTriggerExample(course: string)
    ensures var c, s, events := Settings(course, 60), LateSystem(course), LateEvents();
      && Agrees(s.engine, course, s.top) && Legal(c, s, events)
      && var now := After(c, s, events, 3); now.pending == multiset{} && !Agrees(now.engine, course, now.top)
  {
    LateStart(course);
    LateLegal(course);
    LateEnd(course);
  }
}
