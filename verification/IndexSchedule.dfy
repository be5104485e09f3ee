/** Indexing tasks that run late and in any order, against a course that keeps changing
    (cms/djangoapps/contentstore/signals.py:35-39, tasks.py:94-99). */
module IndexSchedule {
  import opened Text
  import opened CourseIndex

  // ---------- What one run does to the engine ----------

  /** No two documents of the course share an id. */
  ghost predicate Distinct(entries: seq<Entry>) {
    forall x, y :: x in entries && y in entries && x.doc.id == y.doc.id ==> x == y
  }

  predicate Has(engine: Engine, doc: Doc) {
    doc.id in engine && engine[doc.id] == doc
  }

  /** The engine answers for the course as a full rebuild would: every document is there with its own fields,
      and no document of the course has an id that is no longer kept. */
  ghost predicate Agrees(engine: Engine, course: string, top: seq<Item>) {
    && (forall x :: x in Documents(course, top) ==> Has(engine, x.doc))
    && NothingDeletedRemains(engine, course, top)
  }

  ghost predicate NothingDeletedRemains(engine: Engine, course: string, top: seq<Item>) {
    forall id :: id in engine && engine[id].course == course ==> id in KeepOf(top, false)
  }

  lemma {:induction false} SelectedMember(entries: seq<Entry>, triggeredAt: Option<int>, reindexAge: int, d: Doc)
    ensures d in Selected(entries, triggeredAt, reindexAge)
        <==> exists e :: e in entries && e.doc == d && Recent(e, triggeredAt, reindexAge)
  {
    if entries != [] {
      SelectedMember(entries[1..], triggeredAt, reindexAge, d);
      assert forall e :: e in entries <==> e == entries[0] || e in entries[1..];
    }
  }

  lemma {:induction false} UpsertLookup(engine: Engine, docs: seq<Doc>, id: Id)
    ensures (forall d :: d in docs ==> d.id != id) ==>
      (id in Upsert(engine, docs) <==> id in engine)
      && (id in engine ==> Upsert(engine, docs)[id] == engine[id])
    ensures (exists d :: d in docs && d.id == id) ==>
      id in Upsert(engine, docs) && Upsert(engine, docs)[id] in docs && Upsert(engine, docs)[id].id == id
    decreases |docs|
  {
    if docs != [] {
      UpsertLookup(engine[docs[0].id := docs[0]], docs[1..], id);
      assert forall d :: d in docs <==> d == docs[0] || d in docs[1..];
    }
  }

  lemma {:induction false} EntryIsKept(course: string, item: Item, above: seq<int>, e: Entry)
    requires e in Entries(course, item, above)
    ensures e.doc.id in Keep(item) && e.doc.course == course
    decreases item, 1
  {
    if item.hasChildren && e in EntriesOf(course, item.children, above + [item.subtreeEditedOn], true) {
      EntriesAreKept(course, item.children, above + [item.subtreeEditedOn], true, e);
    }
  }

  lemma {:induction false} EntriesAreKept(course: string, items: seq<Item>, above: seq<int>, publishedOnly: bool,
                                          e: Entry)
    requires e in EntriesOf(course, items, above, publishedOnly)
    ensures e.doc.id in KeepOf(items, publishedOnly) && e.doc.course == course
    decreases items, 0
  {
    if e in EntriesOf(course, items[1..], above, publishedOnly) {
      EntriesAreKept(course, items[1..], above, publishedOnly, e);
    } else {
      EntryIsKept(course, items[0], above, e);
    }
  }

  /** A run keeps a document that is up to date, and brings a missing or old one up to date if and only if
      none of the document's ancestors fails the age test. */
  lemma {:induction false} RunRefreshesIffRecent(engine: Engine, course: string, top: seq<Item>,
                                                 triggeredAt: Option<int>, reindexAge: int, x: Entry)
    requires x in Documents(course, top) && Distinct(Documents(course, top))
    ensures Has(AfterRun(engine, course, top, triggeredAt, reindexAge), x.doc)
        <==> Has(engine, x.doc) || triggeredAt.None?
             || forall a :: a in x.above ==> triggeredAt.value - a <= reindexAge
  {
    var docs := Selected(Documents(course, top), triggeredAt, reindexAge);
    EntriesAreKept(course, top, [], false, x);
    UpsertLookup(engine, docs, x.doc.id);
    forall d | d in docs && d.id == x.doc.id
      ensures d == x.doc && Recent(x, triggeredAt, reindexAge)
    {
      SelectedMember(Documents(course, top), triggeredAt, reindexAge, d);
    }
    SelectedMember(Documents(course, top), triggeredAt, reindexAge, x.doc);
  }

  /** After a run of the course no document of a deleted item remains, whatever the age test skipped. */
  lemma {:induction false} RunRemovesDeleted(engine: Engine, course: string, top: seq<Item>,
                                             triggeredAt: Option<int>, reindexAge: int)
    ensures NothingDeletedRemains(AfterRun(engine, course, top, triggeredAt, reindexAge), course, top)
  {
  }

  /** A run leaves the documents of other courses alone, where ids are not shared between courses. */
  lemma {:induction false} RunKeepsOtherCourses(engine: Engine, course: string, top: seq<Item>,
                                                triggeredAt: Option<int>, reindexAge: int, id: Id)
    requires id in engine && engine[id].course != course
    requires forall x :: x in Documents(course, top) ==> x.doc.id != id
    ensures id in AfterRun(engine, course, top, triggeredAt, reindexAge)
    ensures AfterRun(engine, course, top, triggeredAt, reindexAge)[id] == engine[id]
  {
    var docs := Selected(Documents(course, top), triggeredAt, reindexAge);
    forall d | d in docs ensures d.id != id {
      SelectedMember(Documents(course, top), triggeredAt, reindexAge, d);
    }
    UpsertLookup(engine, docs, id);
  }

  /** A full reindex agrees, from any engine. */
  lemma {:induction false} FullRunAgrees(engine: Engine, course: string, top: seq<Item>, reindexAge: int)
    requires Distinct(Documents(course, top))
    ensures Agrees(AfterRun(engine, course, top, None, reindexAge), course, top)
  {
    forall x | x in Documents(course, top)
      ensures Has(AfterRun(engine, course, top, None, reindexAge), x.doc)
    {
      RunRefreshesIffRecent(engine, course, top, None, reindexAge, x);
    }
    RunRemovesDeleted(engine, course, top, None, reindexAge);
  }

  /** The documents of a course. */
  function OfCourse(engine: Engine, course: string): Engine {
    map id | id in engine && engine[id].course == course :: engine[id]
  }

  /** A rebuild has a document under the id. */
  predicate HasEntry(course: string, top: seq<Item>, id: Id) {
    exists x :: x in Documents(course, top) && x.doc.id == id
  }

  /** The documents that no run of the course removes and no run replaces: their id is kept, because an item has it,
      but the item has no document now. */
  function Retained(engine: Engine, course: string, top: seq<Item>): Engine {
    map id | id in OfCourse(engine, course) && id in KeepOf(top, false) && !HasEntry(course, top, id) :: engine[id]
  }

  lemma {:induction false} WithoutEntry(engine: Engine, course: string, top: seq<Item>, triggeredAt: Option<int>,
                                        reindexAge: int, id: Id)
    requires !HasEntry(course, top, id)
    ensures var now := AfterRun(engine, course, top, triggeredAt, reindexAge);
      && (id in OfCourse(now, course) <==> id in OfCourse(engine, course) && id in KeepOf(top, false))
      && (id in OfCourse(now, course) ==> now[id] == engine[id])
  {
    var docs := Selected(Documents(course, top), triggeredAt, reindexAge);
    forall d | d in docs ensures d.id != id {
      SelectedMember(Documents(course, top), triggeredAt, reindexAge, d);
    }
    UpsertLookup(engine, docs, id);
  }

  /** A full reindex, from any engine, leaves of the course what a rebuild from nothing gives and the retained
      documents beside it. */
  lemma {:induction false} ReindexIsRebuildAndRetained(engine: Engine, course: string, top: seq<Item>, reindexAge: int)
    requires Distinct(Documents(course, top))
    ensures OfCourse(AfterRun(engine, course, top, None, reindexAge), course)
         == AfterRun(map[], course, top, None, reindexAge) + Retained(engine, course, top)
  {
    var now, rebuilt := AfterRun(engine, course, top, None, reindexAge), AfterRun(map[], course, top, None, reindexAge);
    var part, all := OfCourse(now, course), rebuilt + Retained(engine, course, top);
    FullRunAgrees(engine, course, top, reindexAge);
    FullRunAgrees(map[], course, top, reindexAge);
    hide AfterRun, KeepOf, Distinct;
    forall id
      ensures id in part <==> id in all
      ensures id in part ==> part[id] == all[id]
    {
      if HasEntry(course, top, id) {
        var x :| x in Documents(course, top) && x.doc.id == id;
        EntriesAreKept(course, top, [], false, x);
        assert Has(now, x.doc) && Has(rebuilt, x.doc);
      } else {
        WithoutEntry(engine, course, top, None, reindexAge, id);
        WithoutEntry(map[], course, top, None, reindexAge, id);
        if id in rebuilt {
          RebuiltHasCourse(course, top, reindexAge, id);
        }
      }
    }
  }

  lemma {:induction false} RebuiltHasCourse(course: string, top: seq<Item>, reindexAge: int, id: Id)
    requires id in AfterRun(map[], course, top, None, reindexAge)
    ensures AfterRun(map[], course, top, None, reindexAge)[id].course == course
  {
    var docs := Selected(Documents(course, top), None, reindexAge);
    UpsertLookup(map[], docs, id);
    var d := Upsert(map[], docs)[id];
    SelectedMember(Documents(course, top), None, reindexAge, d);
    var x :| x in Documents(course, top) && x.doc == d;
    EntriesAreKept(course, top, [], false, x);
  }

  /** A full reindex rebuilds the course's part of the index if and only if the engine it starts from has no document
      of the course under an id that is kept without having a document. */
  lemma {:induction false} ReindexRebuildsIff(engine: Engine, course: string, top: seq<Item>, reindexAge: int)
    requires Distinct(Documents(course, top))
    ensures OfCourse(AfterRun(engine, course, top, None, reindexAge), course)
         == AfterRun(map[], course, top, None, reindexAge)
      <==> forall id :: id in engine && engine[id].course == course && id in KeepOf(top, false) ==>
             HasEntry(course, top, id)
  {
    var rebuilt, retained := AfterRun(map[], course, top, None, reindexAge), Retained(engine, course, top);
    ReindexIsRebuildAndRetained(engine, course, top, reindexAge);
    forall id | id in retained
      ensures id !in rebuilt
    {
      WithoutEntry(map[], course, top, None, reindexAge, id);
      if id in rebuilt {
        RebuiltHasCourse(course, top, reindexAge, id);
      }
    }
    hide AfterRun, KeepOf, HasEntry;
    if id :| id in retained {
      assert id in rebuilt + retained;
    } else {
      assert rebuilt + retained == rebuilt;
      forall id | id in engine && engine[id].course == course && id in KeepOf(top, false)
        ensures HasEntry(course, top, id)
      {
        assert id !in retained;
      }
    }
  }

  /** Such a document stays, as it was, through every run. */
  lemma {:induction false} ContainerKeepsOldDocument(engine: Engine, course: string, top: seq<Item>,
                                                     triggeredAt: Option<int>, reindexAge: int, id: Id)
    requires id in Retained(engine, course, top)
    ensures id in AfterRun(engine, course, top, triggeredAt, reindexAge)
    ensures AfterRun(engine, course, top, triggeredAt, reindexAge)[id] == engine[id]
    ensures id in Retained(AfterRun(engine, course, top, triggeredAt, reindexAge), course, top)
  {
    WithoutEntry(engine, course, top, triggeredAt, reindexAge, id);
  }

  /** A container that was indexed, and whose index dictionary has become empty. */
  const EMPTIED: Item := Item("c", Some(map[]), true, [], true, 0)

  /** Its document stays although a rebuild has none. */
  lemma {:induction false} RetainedDocumentExample(course: string, reindexAge: int)
    ensures var engine := map["c" := Doc(course, "c", map["display_name" := "old"])];
      && Distinct(Documents(course, [EMPTIED])) && "c" in Retained(engine, course, [EMPTIED])
      && OfCourse(AfterRun(engine, course, [EMPTIED], None, reindexAge), course)
         != AfterRun(map[], course, [EMPTIED], None, reindexAge)
  {
    var engine := map["c" := Doc(course, "c", map["display_name" := "old"])];
    assert EntriesOf(course, [], [], false) == [] && EntriesOf(course, EMPTIED.children, [] + [0], true) == [];
    assert Documents(course, [EMPTIED])
        == Entries(course, EMPTIED, []) + EntriesOf(course, [EMPTIED][1..], [], false) == [];
    assert "c" in Keep([EMPTIED][0]) && Keep([EMPTIED][0]) <= KeepOf([EMPTIED], false);
    assert "c" in Retained(engine, course, [EMPTIED]);
    hide AfterRun;
    ReindexRebuildsIff(engine, course, [EMPTIED], reindexAge);
  }

  // ---------- Changes ----------

  /** A document x of the changed course is touched by a change at time e: the change stamped all its ancestors. */
  predicate Touched(x: Entry, e: int) {
    forall a :: a in x.above ==> e <= a
  }

  /** x comes from an unchanged document y: each ancestor of x has a stamp at or after e, or no older than
      the stamp of some ancestor of y. */
  predicate Carried(y: Entry, x: Entry, e: int) {
    y.doc == x.doc && forall a :: a in x.above ==> e <= a || exists b :: b in y.above && b <= a
  }

  /** A change at time e that stamps what it must: every document of the new course is touched or carried over. */
  ghost predicate Stamps(before: seq<Entry>, after: seq<Entry>, e: int) {
    forall x :: x in after ==> Touched(x, e) || exists y :: y in before && Carried(y, x, e)
  }

  // ---------- Schedules ----------

  /** A change of the course at a time; a task being triggered; a task being run; a full reindex. */
  datatype Event = Change(top: seq<Item>, at: int) | Trigger(time: int) | RunTask(time: int) | Reindex

  datatype System = System(top: seq<Item>, engine: Engine, pending: multiset<int>)

  /** A course and the look-back period of its incremental runs. */
  datatype Settings = Settings(course: string, reindexAge: int)

  function Step(c: Settings, s: System, event: Event): System {
    match event
    case Change(top, _) => s.(top := top)
    case Trigger(time) => s.(pending := s.pending + multiset{time})
    case RunTask(time) =>
      s.(engine := AfterRun(s.engine, c.course, s.top, Some(time), c.reindexAge), pending := s.pending - multiset{time})
    case Reindex => s.(engine := AfterRun(s.engine, c.course, s.top, None, c.reindexAge))
  }

  /** The system after the first n events. */
  function After(c: Settings, s: System, events: seq<Event>, n: nat): System
    requires n <= |events|
  {
    if n == 0 then s else Step(c, After(c, s, events, n - 1), events[n - 1])
  }

  predicate IsRun(event: Event) {
    event.RunTask? || event.Reindex?
  }

  function RunTime(event: Event): Option<int>
    requires IsRun(event)
  {
    if event.RunTask? then Some(event.time) else None
  }

  /** Ids stay distinct, changes stamp what they must, and their times do not go back. */
  ghost predicate Legal(c: Settings, s: System, events: seq<Event>) {
    && Distinct(Documents(c.course, s.top))
    && (forall i :: 0 <= i < |events| && events[i].Change? ==>
          && Distinct(Documents(c.course, events[i].top))
          && Stamps(Documents(c.course, After(c, s, events, i).top), Documents(c.course, events[i].top), events[i].at))
    && (forall i, j :: 0 <= i < j < |events| && events[i].Change? && events[j].Change? ==> events[i].at <= events[j].at)
  }

  /** The change at i is still waiting after n events: every run since then looked back too short a time for it. */
  predicate Waiting(c: Settings, events: seq<Event>, i: nat, n: nat)
    requires n <= |events|
  {
    && i < n && events[i].Change?
    && forall j :: i < j < n && IsRun(events[j]) ==> TooOld(events[i].at, RunTime(events[j]), c.reindexAge)
  }

  /** Documents that are not up to date were touched by a change that is still waiting, and documents of deleted
      items remain only while some change has not been followed by any run. */
  ghost predicate Invariant(c: Settings, s: System, events: seq<Event>, n: nat)
    requires n <= |events|
  {
    var now := After(c, s, events, n);
    && Distinct(Documents(c.course, now.top))
    && (forall x :: x in Documents(c.course, now.top) ==> Has(now.engine, x.doc) || WaitsFor(c, events, x, n))
    && (NothingDeletedRemains(now.engine, c.course, now.top)
        || exists i: nat :: NoRunSince(events, i, n))
  }

  predicate NoRunSince(events: seq<Event>, i: nat, n: nat)
    requires n <= |events|
  {
    i < n && events[i].Change? && forall j :: i < j < n ==> !IsRun(events[j])
  }

  ghost predicate WaitsFor(c: Settings, events: seq<Event>, x: Entry, n: nat)
    requires n <= |events|
  {
    exists i: nat :: Waiting(c, events, i, n) && Touched(x, events[i].at)
  }

  /** A document carried over by a change waits for what the document it comes from waits for. */
  lemma {:induction false} CarriedStillWaits(c: Settings, events: seq<Event>, x: Entry, y: Entry, n: nat)
    requires n < |events| && events[n].Change? && WaitsFor(c, events, y, n) && Carried(y, x, events[n].at)
    requires forall i, j :: 0 <= i < j < |events| && events[i].Change? && events[j].Change? ==>
      events[i].at <= events[j].at
    ensures WaitsFor(c, events, x, n + 1)
  {
  }

  lemma {:induction false} ChangeKeepsInvariant(c: Settings, s: System, events: seq<Event>, n: nat)
    requires n < |events| && events[n].Change? && Legal(c, s, events) && Invariant(c, s, events, n)
    ensures Invariant(c, s, events, n + 1)
  {
    var before, now := After(c, s, events, n), After(c, s, events, n + 1);
    var e := events[n].at;
    assert now.top == events[n].top && now.engine == before.engine;
    assert NoRunSince(events, n, n + 1);
    hide Documents, After, Keep, KeepOf, NothingDeletedRemains;
    forall x | x in Documents(c.course, now.top)
      ensures Has(now.engine, x.doc) || WaitsFor(c, events, x, n + 1)
    {
      if Touched(x, e) {
        assert Waiting(c, events, n, n + 1);
      } else {
        var y :| y in Documents(c.course, before.top) && Carried(y, x, e);
        if !Has(before.engine, y.doc) {
          CarriedStillWaits(c, events, x, y, n);
        }
      }
    }
  }

  lemma {:induction false} RunKeepsInvariant(c: Settings, s: System, events: seq<Event>, n: nat)
    requires n < |events| && IsRun(events[n]) && Invariant(c, s, events, n)
    ensures Invariant(c, s, events, n + 1)
  {
    var before, now := After(c, s, events, n), After(c, s, events, n + 1);
    var t := RunTime(events[n]);
    forall x | x in Documents(c.course, now.top)
      ensures Has(now.engine, x.doc) || WaitsFor(c, events, x, n + 1)
    {
      RunRefreshesIffRecent(before.engine, c.course, before.top, t, c.reindexAge, x);
      if !Has(before.engine, x.doc) && !Recent(x, t, c.reindexAge) {
        var i: nat :| Waiting(c, events, i, n) && Touched(x, events[i].at);
        assert Waiting(c, events, i, n + 1);
      }
    }
    RunRemovesDeleted(before.engine, c.course, before.top, t, c.reindexAge);
  }

  lemma {:induction false} TriggerKeepsInvariant(c: Settings, s: System, events: seq<Event>, n: nat)
    requires n < |events| && events[n].Trigger? && Invariant(c, s, events, n)
    ensures Invariant(c, s, events, n + 1)
  {
    var now := After(c, s, events, n + 1);
    forall x | x in Documents(c.course, now.top) && !Has(now.engine, x.doc)
      ensures WaitsFor(c, events, x, n + 1)
    {
      var i: nat :| Waiting(c, events, i, n) && Touched(x, events[i].at);
      assert Waiting(c, events, i, n + 1);
    }
    assert forall i: nat :: NoRunSince(events, i, n) ==> NoRunSince(events, i, n + 1);
  }

  lemma {:induction false} InvariantAtStart(c: Settings, s: System, events: seq<Event>)
    requires Legal(c, s, events) && Agrees(s.engine, c.course, s.top)
    ensures Invariant(c, s, events, 0)
  {
  }

  lemma {:induction false} InvariantHolds(c: Settings, s: System, events: seq<Event>, n: nat)
    requires n <= |events| && Legal(c, s, events) && Agrees(s.engine, c.course, s.top)
    ensures Invariant(c, s, events, n)
  {
    hide Invariant, Legal, Agrees;
    if n == 0 {
      InvariantAtStart(c, s, events);
    } else {
      InvariantHolds(c, s, events, n - 1);
      if events[n - 1].Change? {
        ChangeKeepsInvariant(c, s, events, n - 1);
      } else if events[n - 1].Trigger? {
        TriggerKeepsInvariant(c, s, events, n - 1);
      } else {
        RunKeepsInvariant(c, s, events, n - 1);
      }
    }
  }

  /** A task that was triggered and is no longer pending has been run since. */
  lemma {:induction false} TriggeredTaskHasRun(c: Settings, s: System, events: seq<Event>, j: nat, n: nat)
    requires j < n <= |events| && events[j].Trigger? && events[j].time !in After(c, s, events, n).pending
    ensures exists k :: j < k < n && events[k] == RunTask(events[j].time)
  {
    if n > j + 1 && events[n - 1] != RunTask(events[j].time) {
      TriggeredTaskHasRun(c, s, events, j, n - 1);
    }
  }

  /** The event is a full reindex, or a run before whose trigger no ancestor of the document had been left unchanged
      for longer than the look-back period. */
  predicate Refreshes(c: Settings, event: Event, x: Entry) {
    event.Reindex? || (event.RunTask? && forall a :: a in x.above ==> event.time - a <= c.reindexAge)
  }

  /** While the course does not change, a document is up to date after n events if and only if it was after the
      first i of them or some run since then took none of the document's ancestors for too old. */
  lemma {:induction false} UpToDateIff(c: Settings, s: System, events: seq<Event>, i: nat, n: nat, x: Entry)
    requires i <= n <= |events| && forall j :: i <= j < n ==> !events[j].Change?
    requires x in Documents(c.course, After(c, s, events, i).top)
    requires Distinct(Documents(c.course, After(c, s, events, i).top))
    ensures After(c, s, events, n).top == After(c, s, events, i).top
    ensures Has(After(c, s, events, n).engine, x.doc)
        <==> Has(After(c, s, events, i).engine, x.doc) || exists j :: i <= j < n && Refreshes(c, events[j], x)
  {
    hide *;
    if i < n {
      UpToDateIff(c, s, events, i, n - 1, x);
      AfterStep(c, s, events, n);
      UpToDateStep(c, After(c, s, events, n - 1), events[n - 1], x);
    }
  }

  lemma {:induction false} AfterStep(c: Settings, s: System, events: seq<Event>, n: nat)
    requires 0 < n <= |events|
    ensures After(c, s, events, n) == Step(c, After(c, s, events, n - 1), events[n - 1])
  {
  }

  lemma {:induction false} UpToDateStep(c: Settings, before: System, event: Event, x: Entry)
    requires !event.Change? && x in Documents(c.course, before.top) && Distinct(Documents(c.course, before.top))
    ensures Step(c, before, event).top == before.top
    ensures Has(Step(c, before, event).engine, x.doc) <==> Has(before.engine, x.doc) || Refreshes(c, event, x)
  {
    hide AfterRun, Distinct, Recent, Documents, Has;
    if IsRun(event) {
      RunRefreshesIffRecent(before.engine, c.course, before.top, RunTime(event), c.reindexAge, x);
    }
  }

  /** Each change is followed by the trigger of a task that looks back far enough for it, or by a full reindex. */
  ghost predicate EachChangeIsCovered(c: Settings, events: seq<Event>) {
    forall i :: 0 <= i < |events| && events[i].Change? ==>
      exists j :: i < j < |events|
        && (events[j].Reindex? || (events[j].Trigger? && events[j].time <= events[i].at + c.reindexAge))
  }

  /** Whatever the order of changes, triggers and late runs: when no task is pending and each change is covered,
      the engine answers for the course as a full rebuild would. */
  lemma {:induction false} IncrementalIndexingCatchesUp(c: Settings, s: System, events: seq<Event>)
    requires Legal(c, s, events) && Agrees(s.engine, c.course, s.top)
    requires After(c, s, events, |events|).pending == multiset{} && EachChangeIsCovered(c, events)
    ensures var now := After(c, s, events, |events|); Agrees(now.engine, c.course, now.top)
  {
    var n := |events|;
    InvariantHolds(c, s, events, n);
    forall i: nat | i < n && events[i].Change?
      ensures !Waiting(c, events, i, n)
      ensures exists k :: i < k < n && IsRun(events[k])
    {
      var j :| i < j < n
               && (events[j].Reindex? || (events[j].Trigger? && events[j].time <= events[i].at + c.reindexAge));
      if events[j].Trigger? {
        TriggeredTaskHasRun(c, s, events, j, n);
      }
    }
  }
}
