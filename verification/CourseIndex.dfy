/** One run of the search indexer (cms/djangoapps/contentstore/courseware_index.py:102-274). */
module CourseIndex {
  import opened Text

  type Id = string
  type Fields = map<string, string>

  /** An item of the course tree. `dictionary` is what index_dictionary() gives, None when the item has none. */
  datatype Item = Item(id: Id, dictionary: Option<Fields>, hasChildren: bool, children: seq<Item>,
                       published: bool, subtreeEditedOn: int)

  /** A document of the search engine: location information, id and the item's own fields. */
  datatype Doc = Doc(course: string, id: Id, fields: Fields)

  type Engine = map<Id, Doc>

  // ---------- Specification ----------

  /** An empty index dictionary counts as none. */
  predicate Indexable(item: Item) {
    item.dictionary.Some? && item.dictionary.value != map[]
  }

  /** Items without an index dictionary and without children are passed over. */
  predicate Ignored(item: Item) {
    !Indexable(item) && !item.hasChildren
  }

  /** The content last changed too long before the run was triggered; a run without a trigger time takes all. */
  predicate TooOld(subtreeEditedOn: int, triggeredAt: Option<int>, reindexAge: int) {
    triggeredAt.Some? && triggeredAt.value - subtreeEditedOn > reindexAge
  }

  function DocOf(course: string, item: Item): Doc
    requires Indexable(item)
  {
    Doc(course, item.id, item.dictionary.value)
  }

  /** A document of the tree, with the subtreeEditedOn of each proper ancestor below the structure root. */
  datatype Entry = Entry(doc: Doc, above: seq<int>)

  /** Every document a full run sends for an item, children before parents. */
  function Entries(course: string, item: Item, above: seq<int>): seq<Entry>
    decreases item, 1
  {
    if Ignored(item) then []
    else
      (if item.hasChildren then EntriesOf(course, item.children, above + [item.subtreeEditedOn], true) else [])
      + (if Indexable(item) then [Entry(DocOf(course, item), above)] else [])
  }

  function EntriesOf(course: string, items: seq<Item>, above: seq<int>, publishedOnly: bool): seq<Entry>
    decreases items, 0
  {
    if items == [] then []
    else
      (if publishedOnly && !items[0].published then [] else Entries(course, items[0], above))
      + EntriesOf(course, items[1..], above, publishedOnly)
  }

  /** The documents of the structure whose top-level items are given. */
  function Documents(course: string, top: seq<Item>): seq<Entry> {
    EntriesOf(course, top, [], false)
  }

  /** The ids that stay in the index. */
  function Keep(item: Item): set<Id>
    decreases item, 1
  {
    if Ignored(item) then {}
    else {item.id} + if item.hasChildren then KeepOf(item.children, true) else {}
  }

  function KeepOf(items: seq<Item>, publishedOnly: bool): set<Id>
    decreases items, 0
  {
    if items == [] then {}
    else
      (if publishedOnly && !items[0].published then {} else Keep(items[0])) + KeepOf(items[1..], publishedOnly)
  }

  /** No proper ancestor of the entry fails the age test. */
  predicate Recent(e: Entry, triggeredAt: Option<int>, reindexAge: int) {
    forall a :: a in e.above ==> !TooOld(a, triggeredAt, reindexAge)
  }

  /** The documents of the recent entries, in order. */
  function Selected(entries: seq<Entry>, triggeredAt: Option<int>, reindexAge: int): seq<Doc> {
    if entries == [] then []
    else
      (if Recent(entries[0], triggeredAt, reindexAge) then [entries[0].doc] else [])
      + Selected(entries[1..], triggeredAt, reindexAge)
  }

  /** Bulk index: later documents replace earlier ones of the same id. */
  function Upsert(engine: Engine, docs: seq<Doc>): Engine
    decreases |docs|
  {
    if docs == [] then engine else Upsert(engine[docs[0].id := docs[0]], docs[1..])
  }

  /** remove_deleted_items: the course's documents whose id is not kept are removed. */
  function RemoveDeleted(engine: Engine, course: string, keep: set<Id>): Engine {
    map id | id in engine && !(engine[id].course == course && id !in keep) :: engine[id]
  }

  /** The engine after one run. */
  function AfterRun(engine: Engine, course: string, top: seq<Item>, triggeredAt: Option<int>, reindexAge: int): Engine {
    RemoveDeleted(Upsert(engine, Selected(Documents(course, top), triggeredAt, reindexAge)), course, KeepOf(top, false))
  }

  // ---------- Selecting ----------

  lemma {:induction false} SelectedConcat(a: seq<Entry>, b: seq<Entry>, triggeredAt: Option<int>, reindexAge: int)
    ensures Selected(a + b, triggeredAt, reindexAge)
         == Selected(a, triggeredAt, reindexAge) + Selected(b, triggeredAt, reindexAge)
  {
    hide Recent;
    if a == [] {
      assert a + b == b;
    } else {
      assert (a + b)[0] == a[0] && (a + b)[1..] == a[1..] + b;
      SelectedConcat(a[1..], b, triggeredAt, reindexAge);
      var first := if Recent(a[0], triggeredAt, reindexAge) then [a[0].doc] else [];
      var rest, more := Selected(a[1..], triggeredAt, reindexAge), Selected(b, triggeredAt, reindexAge);
      assert first + (rest + more) == (first + rest) + more;
    }
  }

  /** A full run sends the documents of all entries, in order. */
  lemma {:induction false} FullRunSendsAll(entries: seq<Entry>, reindexAge: int)
    ensures |Selected(entries, None, reindexAge)| == |entries|
    ensures forall k :: 0 <= k < |entries| ==> Selected(entries, None, reindexAge)[k] == entries[k].doc
  {
    if entries != [] {
      FullRunSendsAll(entries[1..], reindexAge);
    }
  }

  // ---------- The indexer ----------

  class Indexer {
    const course: string
    const triggeredAt: Option<int>
    const reindexAge: int
    var indexedItems: set<Id>
    var itemsIndex: seq<Doc>
    var indexedCount: nat

    constructor (course: string, triggeredAt: Option<int>, reindexAge: int)
      ensures this.course == course && this.triggeredAt == triggeredAt && this.reindexAge == reindexAge
      ensures indexedItems == {} && itemsIndex == [] && indexedCount == 0
    {
      this.course, this.triggeredAt, this.reindexAge := course, triggeredAt, reindexAge;
      indexedItems, itemsIndex, indexedCount := {}, [], 0;
    }

    /** What is still sent below a node that is skipped (`skip`) or not. */
    ghost predicate SkipMeans(skip: bool, above: seq<int>) {
      skip <==> exists a :: a in above && TooOld(a, triggeredAt, reindexAge)
    }

    lemma SkipBelow(skip: bool, above: seq<int>, subtreeEditedOn: int)
      requires SkipMeans(skip, above)
      ensures SkipMeans(skip || TooOld(subtreeEditedOn, triggeredAt, reindexAge), above + [subtreeEditedOn])
    {
      assert forall a :: a in above + [subtreeEditedOn] <==> a in above || a == subtreeEditedOn;
    }

    /** prepare_item_index: whatever `skipIndex` stands for, the ids of the whole visible subtree are kept, and the
        documents sent are those without an ancestor that is too old. */
    method PrepareItemIndex(item: Item, skipIndex: bool, ghost above: seq<int>)
      requires SkipMeans(skipIndex, above)
      modifies this
      ensures indexedItems == old(indexedItems) + Keep(item)
      ensures itemsIndex == old(itemsIndex) + Selected(Entries(course, item, above), triggeredAt, reindexAge)
      ensures indexedCount - |itemsIndex| == old(indexedCount - |itemsIndex|)
      decreases item, 1
    {
      var isIndexable := item.dictionary.Some? && item.dictionary.value != map[];
      if !isIndexable && !item.hasChildren {
        return;
      }
      EntriesSelected(item, skipIndex, above);
      hide Entries, EntriesOf, Selected;
      indexedItems := indexedItems + {item.id};
      if item.hasChildren {
        var skipChildIndex :=
          skipIndex || (triggeredAt.Some? && triggeredAt.value - item.subtreeEditedOn > reindexAge);
        SkipBelow(skipIndex, above, item.subtreeEditedOn);
        hide SkipMeans;
        PrepareChildren(item.children, skipChildIndex, true, above + [item.subtreeEditedOn]);
      }
      if skipIndex || !isIndexable {
        return;
      }
      itemsIndex := itemsIndex + [Doc(course, item.id, item.dictionary.value)];
      indexedCount := indexedCount + 1;
    }

    /** What is sent for an item: what is sent for its children, and the item's own document if it is not skipped. */
    lemma EntriesSelected(item: Item, skip: bool, above: seq<int>)
      requires SkipMeans(skip, above) && !Ignored(item)
      ensures Selected(Entries(course, item, above), triggeredAt, reindexAge)
           == (if item.hasChildren then SelectedOf(item.children, above + [item.subtreeEditedOn], true) else [])
              + (if skip || !Indexable(item) then [] else [DocOf(course, item)])
    {
      var stamps := above + [item.subtreeEditedOn];
      var below := if item.hasChildren then EntriesOf(course, item.children, stamps, true) else [];
      var own := if Indexable(item) then [Entry(DocOf(course, item), above)] else [];
      assert Entries(course, item, above) == below + own;
      hide Entries, EntriesOf;
      SelectedConcat(below, own, triggeredAt, reindexAge);
    }

    /** The loops over children: of an item, where unpublished ones are passed over, and of the structure. */
    method PrepareChildren(items: seq<Item>, skipIndex: bool, publishedOnly: bool, ghost above: seq<int>)
      requires SkipMeans(skipIndex, above)
      modifies this
      ensures indexedItems == old(indexedItems) + KeepOf(items, publishedOnly)
      ensures itemsIndex == old(itemsIndex)
                            + Selected(EntriesOf(course, items, above, publishedOnly), triggeredAt, reindexAge)
      ensures indexedCount - |itemsIndex| == old(indexedCount - |itemsIndex|)
      decreases items, 0
    {
      hide Entries, EntriesOf, Keep, Selected, TooOld;
      ghost var all := SelectedOf(items, above, publishedOnly);
      for i := 0 to |items|
        invariant indexedItems + KeepOf(items[i..], publishedOnly) == old(indexedItems) + KeepOf(items, publishedOnly)
        invariant itemsIndex + SelectedOf(items[i..], above, publishedOnly) == old(itemsIndex) + all
        invariant indexedCount - |itemsIndex| == old(indexedCount - |itemsIndex|)
      {
        SelectedOfHead(items[i..], above, publishedOnly);
        assert items[i..][1..] == items[i + 1..];
        hide SelectedOf;
        if !publishedOnly || items[i].published {
          ghost var before := itemsIndex;
          PrepareItemIndex(items[i], skipIndex, above);
          ghost var own := Selected(Entries(course, items[i], above), triggeredAt, reindexAge);
          assert before + (own + SelectedOf(items[i + 1..], above, publishedOnly))
              == itemsIndex + SelectedOf(items[i + 1..], above, publishedOnly);
        }
      }
      SelectedOfHead([], above, publishedOnly);
    }

    ghost function SelectedOf(items: seq<Item>, above: seq<int>, publishedOnly: bool): seq<Doc> {
      Selected(EntriesOf(course, items, above, publishedOnly), triggeredAt, reindexAge)
    }

    lemma SelectedOfHead(items: seq<Item>, above: seq<int>, publishedOnly: bool)
      ensures items == [] ==> SelectedOf(items, above, publishedOnly) == []
      ensures items != [] ==>
        SelectedOf(items, above, publishedOnly)
        == (if publishedOnly && !items[0].published then []
            else Selected(Entries(course, items[0], above), triggeredAt, reindexAge))
           + SelectedOf(items[1..], above, publishedOnly)
    {
      if items != [] {
        SelectedConcat(if publishedOnly && !items[0].published then [] else Entries(course, items[0], above),
                       EntriesOf(course, items[1..], above, publishedOnly), triggeredAt, reindexAge);
      }
    }
  }

  /** The search engine. */
  class SearchEngine {
    var docs: Engine

    constructor ()
      ensures docs == map[]
    {
      docs := map[];
    }

    /** remove_deleted_items: searches for the course's documents that are not kept, and removes them. */
    method RemoveDeletedItems(course: string, excludeItems: set<Id>)
      modifies this
      ensures docs == RemoveDeleted(old(docs), course, excludeItems)
    {
      var resultIds := set id | id in docs && docs[id].course == course && id !in excludeItems;
      docs := docs - resultIds;
    }

    /** SearchIndexerBase.index: the run's effect on the engine, and the number of documents it sent. */
    method Index(course: string, top: seq<Item>, triggeredAt: Option<int>, reindexAge: int) returns (count: nat)
      modifies this
      ensures docs == AfterRun(old(docs), course, top, triggeredAt, reindexAge)
      ensures count == |Selected(Documents(course, top), triggeredAt, reindexAge)|
    {
      var indexer := new Indexer(course, triggeredAt, reindexAge);
      indexer.PrepareChildren(top, false, false, []);
      ghost var selected := Selected(Documents(course, top), triggeredAt, reindexAge);
      assert indexer.itemsIndex == [] + selected == selected;
      docs := Upsert(docs, indexer.itemsIndex);
      RemoveDeletedItems(course, indexer.indexedItems);
      count := indexer.indexedCount;
    }
  }
}
